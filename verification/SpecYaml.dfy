/** Schemas written as YAML: what the keyword lookups of `SpecSchema` read off a
    node, stated against a writer of its own. */
module SpecYaml {
  import opened Strings
  import opened SpecSchema
  import opened SpecWalker
  import opened SpecDispatch
  import opened SpecPaths
  import opened SpecMeaning
  import opened SpecLimits
  import opened Wrappers

  /** What a writer may choose: the keyword of a list of alternatives, and the
      type it gives to a schema without items. */
  datatype Layout = Layout(alternatives: string, plainType: string) {
    predicate Valid() {
      (alternatives == "oneOf" || alternatives == "anyOf") && plainType != "array"
    }
  }

  // ---------- Writing ----------

  /** The schema as a YAML mapping; keywords with nothing to say are left out. */
  function YamlOf(s: Schema, l: Layout): Yaml
    decreases s
  {
    Mapping(RefPart(s) + ComboPart(s, l) + AllOfPart(s, l) + RequiredPart(s) + PropertiesPart(s, l) + ItemsPart(s, l))
  }

  function RefPart(s: Schema): seq<Entry> {
    if s.ref == "" then [] else [Entry("$ref", Scalar(s.ref))]
  }

  function ComboPart(s: Schema, l: Layout): seq<Entry>
    decreases s, 1
  {
    if s.combo == [] then []
    else [Entry(l.alternatives, Sequence(Branches(s, l)))]
  }

  function Branches(s: Schema, l: Layout): seq<Yaml>
    decreases s, 0
  {
    seq(|s.combo|, i requires 0 <= i < |s.combo| => YamlOf(s.combo[i], l))
  }

  function AllOfPart(s: Schema, l: Layout): seq<Entry>
    decreases s, 0
  {
    if s.allOf == [] then []
    else [Entry("allOf", Sequence(seq(|s.allOf|, i requires 0 <= i < |s.allOf| => YamlOf(s.allOf[i], l))))]
  }

  function RequiredPart(s: Schema): seq<Entry> {
    if s.required == [] then []
    else [Entry("required", Sequence(seq(|s.required|, i requires 0 <= i < |s.required| => Scalar(s.required[i]))))]
  }

  function PropertiesPart(s: Schema, l: Layout): seq<Entry>
    decreases s, 0
  {
    if s.properties == [] then []
    else
      var ps := s.properties;
      [Entry("properties",
             Mapping(seq(|ps|, i requires 0 <= i < |ps| => Entry(ps[i].name, YamlOf(ps[i].schema, l)))))]
  }

  function ItemsPart(s: Schema, l: Layout): seq<Entry>
    decreases s, 0
  {
    match s.items
    case None => [Entry("type", Scalar(l.plainType))]
    case Some(items) => [Entry("type", Scalar("array")), Entry("items", YamlOf(items, l))]
  }

  // ---------- Looking keys up ----------

  predicate Lacks(entries: seq<Entry>, key: string) {
    forall i | 0 <= i < |entries| :: entries[i].key != key
  }

  /** The first entry of a key is the one that counts. */
  lemma {:induction false} FindAfter(a: seq<Entry>, e: Entry, b: seq<Entry>)
    requires Lacks(a, e.key)
    ensures FindEntry(a + [e] + b, e.key) == Some(e.value)
  {
    var s := a + [e] + b;
    if a != [] {
      assert s[0] == a[0] && s[1..] == a[1..] + [e] + b;
      FindAfter(a[1..], e, b);
    }
  }

  lemma {:induction false} FindNothing(entries: seq<Entry>, key: string)
    requires Lacks(entries, key)
    ensures FindEntry(entries, key) == None
  {
    if entries != [] {
      FindNothing(entries[1..], key);
    }
  }

  lemma FindOnly(e: Entry, key: string)
    ensures FindEntry([e], key) == if e.key == key then Some(e.value) else None
  {
  }

  /** A key is looked up part by part. */
  lemma {:induction false} FindInParts(a: seq<Entry>, b: seq<Entry>, key: string)
    ensures FindEntry(a + b, key) == if Lacks(a, key) then FindEntry(b, key) else FindEntry(a, key)
  {
    if a == [] {
      assert a + b == b;
    } else {
      assert (a + b)[0] == a[0] && (a + b)[1..] == a[1..] + b;
      FindInParts(a[1..], b, key);
      assert Lacks(a, key) <==> a[0].key != key && Lacks(a[1..], key);
    }
  }

  /** The part of a written schema that may hold the key. */
  function PartOf(s: Schema, l: Layout, key: string): seq<Entry> {
    if key == "$ref" then RefPart(s)
    else if key == l.alternatives then ComboPart(s, l)
    else if key == "allOf" then AllOfPart(s, l)
    else if key == "required" then RequiredPart(s)
    else if key == "properties" then PropertiesPart(s, l)
    else if key == "type" || key == "items" then ItemsPart(s, l)
    else []
  }

  lemma PartsLack(s: Schema, l: Layout, key: string)
    ensures key != "$ref" ==> Lacks(RefPart(s), key)
    ensures key != l.alternatives ==> Lacks(ComboPart(s, l), key)
    ensures key != "allOf" ==> Lacks(AllOfPart(s, l), key)
    ensures key != "required" ==> Lacks(RequiredPart(s), key)
    ensures key != "properties" ==> Lacks(PropertiesPart(s, l), key)
    ensures key != "type" && key != "items" ==> Lacks(ItemsPart(s, l), key)
  {
  }

  lemma WrittenKey(s: Schema, l: Layout, key: string)
    requires l.Valid()
    ensures MappingChild(YamlOf(s, l), key) == FindEntry(PartOf(s, l, key), key)
  {
    var a, b, c, d, e, f := RefPart(s), ComboPart(s, l), AllOfPart(s, l), RequiredPart(s), PropertiesPart(s, l), ItemsPart(s, l);
    PartsLack(s, l, key);
    FindNothing([], key);
    hide FindEntry, Lacks, RefPart, ComboPart, AllOfPart, RequiredPart, PropertiesPart, ItemsPart;
    FindInParts(a + b + c + d + e, f, key);
    FindInParts(a + b + c + d, e, key);
    FindInParts(a + b + c, d, key);
    FindInParts(a + b, c, key);
    FindInParts(a, b, key);
    LacksParts(a, b, key);
    LacksParts(a + b, c, key);
    LacksParts(a + b + c, d, key);
    LacksParts(a + b + c + d, e, key);
    if Lacks(PartOf(s, l, key), key) {
      FindNothing(PartOf(s, l, key), key);
    }
    if Lacks(f, key) {
      FindNothing(f, key);
    }
  }

  lemma LacksParts(a: seq<Entry>, b: seq<Entry>, key: string)
    ensures Lacks(a + b, key) <==> Lacks(a, key) && Lacks(b, key)
  {
    assert forall i | 0 <= i < |a| :: (a + b)[i] == a[i];
    assert forall i | 0 <= i < |b| :: (a + b)[|a| + i] == b[i];
  }

  // ---------- Reading back ----------

  /** The written value of each keyword. */
  lemma WrittenValues(s: Schema, l: Layout)
    requires l.Valid()
    ensures var y := YamlOf(s, l);
            && MappingChild(y, "$ref") == (if s.ref == "" then None else Some(Scalar(s.ref)))
            && MappingChild(y, "allOf") == FindEntry(AllOfPart(s, l), "allOf")
            && MappingChild(y, "required") == FindEntry(RequiredPart(s), "required")
            && MappingChild(y, "properties") == FindEntry(PropertiesPart(s, l), "properties")
  {
    WrittenKey(s, l, "$ref");
    WrittenKey(s, l, "allOf");
    WrittenKey(s, l, "required");
    WrittenKey(s, l, "properties");
    hide YamlOf, MappingChild;
  }

  lemma WrittenRef(s: Schema, l: Layout)
    requires l.Valid()
    ensures ScalarChild(YamlOf(s, l), "$ref") == s.ref
  {
    WrittenValues(s, l);
    hide YamlOf, MappingChild;
  }

  lemma WrittenAlternatives(s: Schema, l: Layout, key: string)
    requires l.Valid() && (key == "oneOf" || key == "anyOf")
    ensures MappingChild(YamlOf(s, l), key)
         == if s.combo != [] && key == l.alternatives then Some(Sequence(Branches(s, l))) else None
  {
    WrittenKey(s, l, key);
    hide YamlOf, MappingChild, Branches;
    FindNothing([], key);
    if s.combo != [] {
      FindOnly(Entry(l.alternatives, Sequence(Branches(s, l))), key);
    }
  }

  lemma WrittenCombo(s: Schema, l: Layout)
    requires l.Valid() && forall i | 0 <= i < |s.combo| :: SchemaOf(YamlOf(s.combo[i], l)) == s.combo[i]
    ensures SchemasOf(ComboOf(YamlOf(s, l))) == s.combo
  {
    WrittenAlternatives(s, l, "oneOf");
    WrittenAlternatives(s, l, "anyOf");
    hide SchemaOf, YamlOf, MappingChild;
  }

  lemma WrittenAllOf(s: Schema, l: Layout)
    requires l.Valid() && forall i | 0 <= i < |s.allOf| :: SchemaOf(YamlOf(s.allOf[i], l)) == s.allOf[i]
    ensures SchemasOf(Listed(YamlOf(s, l), "allOf")) == s.allOf
  {
    WrittenValues(s, l);
    hide SchemaOf, YamlOf, MappingChild;
  }

  lemma WrittenRequired(s: Schema, l: Layout)
    requires l.Valid()
    ensures ValuesOf(Listed(YamlOf(s, l), "required")) == s.required
  {
    WrittenValues(s, l);
    hide YamlOf, MappingChild;
  }

  lemma WrittenProperties(s: Schema, l: Layout)
    requires l.Valid()
    requires forall i | 0 <= i < |s.properties| :: SchemaOf(YamlOf(s.properties[i].schema, l)) == s.properties[i].schema
    ensures PropertiesOf(EntriesOf(YamlOf(s, l))) == s.properties
  {
    WrittenValues(s, l);
    hide SchemaOf, YamlOf, MappingChild;
  }

  lemma TypeAndItems(s: Schema, l: Layout)
    ensures FindEntry(ItemsPart(s, l), "type") == Some(Scalar(if s.items.Some? then "array" else l.plainType))
    ensures FindEntry(ItemsPart(s, l), "items") == if s.items.Some? then Some(YamlOf(s.items.value, l)) else None
  {
    hide YamlOf;
    if s.items.Some? {
      assert ItemsPart(s, l)[1..] == [Entry("items", YamlOf(s.items.value, l))];
    }
  }

  lemma WrittenTypeAndItems(s: Schema, l: Layout)
    requires l.Valid()
    ensures MappingChild(YamlOf(s, l), "type") == Some(Scalar(if s.items.Some? then "array" else l.plainType))
    ensures MappingChild(YamlOf(s, l), "items") == if s.items.Some? then Some(YamlOf(s.items.value, l)) else None
  {
    hide YamlOf, MappingChild, FindEntry, ItemsPart;
    WrittenKey(s, l, "type");
    WrittenKey(s, l, "items");
    TypeAndItems(s, l);
  }

  lemma WrittenItems(s: Schema, l: Layout)
    requires l.Valid() && (s.items.Some? ==> SchemaOf(YamlOf(s.items.value, l)) == s.items.value)
    ensures s.items == if ItemsOf(YamlOf(s, l)).Some? then Some(SchemaOf(ItemsOf(YamlOf(s, l)).value)) else None
  {
    WrittenTypeAndItems(s, l);
    hide SchemaOf, YamlOf, MappingChild;
  }

  /** Every schema is read back from the YAML it is written as, with alternatives
      under `oneOf` or under `anyOf`, and items under `type: array`. */
  lemma {:induction false} ReadWritten(s: Schema, l: Layout)
    requires l.Valid()
    ensures SchemaOf(YamlOf(s, l)) == s
    decreases s
  {
    forall i | 0 <= i < |s.combo| {
      ReadWritten(s.combo[i], l);
    }
    forall i | 0 <= i < |s.allOf| {
      ReadWritten(s.allOf[i], l);
    }
    forall i | 0 <= i < |s.properties| {
      ReadWritten(s.properties[i].schema, l);
    }
    if s.items.Some? {
      ReadWritten(s.items.value, l);
    }
    hide YamlOf, SchemaOf, ScalarChild, ComboOf, Listed, EntriesOf, ItemsOf;
    KeywordsAreFields(YamlOf(s, l));
    WrittenRef(s, l);
    WrittenCombo(s, l);
    WrittenAllOf(s, l);
    WrittenRequired(s, l);
    WrittenProperties(s, l);
    WrittenItems(s, l);
  }

  // ---------- What a node may hold besides ----------

  const KEYWORDS := {"$ref", "oneOf", "anyOf", "allOf", "required", "properties", "type", "items"}

  lemma SameReadings(y: Yaml, z: Yaml)
    requires ScalarChild(y, "$ref") == ScalarChild(z, "$ref") && ComboOf(y) == ComboOf(z)
    requires Listed(y, "allOf") == Listed(z, "allOf") && Listed(y, "required") == Listed(z, "required")
    requires EntriesOf(y) == EntriesOf(z) && ItemsOf(y) == ItemsOf(z)
    ensures SchemaOf(y) == SchemaOf(z)
  {
    KeywordsAreFields(y);
    KeywordsAreFields(z);
  }

  predicate SameAt(y: Yaml, z: Yaml, key: string) {
    MappingChild(y, key) == MappingChild(z, key)
  }

  lemma SameCombo(y: Yaml, z: Yaml)
    requires SameAt(y, z, "oneOf") && (MappingChild(y, "oneOf").Some? || SameAt(y, z, "anyOf"))
    ensures ComboOf(y) == ComboOf(z)
  {
    hide MappingChild;
  }

  lemma SameList(y: Yaml, z: Yaml, key: string)
    requires SameAt(y, z, key)
    ensures Listed(y, key) == Listed(z, key) && ScalarChild(y, key) == ScalarChild(z, key)
  {
    hide MappingChild;
  }

  lemma SameEntries(y: Yaml, z: Yaml)
    requires SameAt(y, z, "properties")
    ensures EntriesOf(y) == EntriesOf(z)
  {
    hide MappingChild;
  }

  lemma SameItems(y: Yaml, z: Yaml)
    requires SameAt(y, z, "type") && (MappingChild(y, "type") != Some(Scalar("array")) || SameAt(y, z, "items"))
    ensures ItemsOf(y) == ItemsOf(z)
  {
    hide MappingChild;
  }

  /** The eight keywords decide. */
  lemma SameKeywords(y: Yaml, z: Yaml)
    requires forall key | key in {"$ref", "allOf", "required", "properties"} :: SameAt(y, z, key)
    requires SameAt(y, z, "oneOf") && (MappingChild(y, "oneOf").Some? || SameAt(y, z, "anyOf"))
    requires SameAt(y, z, "type") && (MappingChild(y, "type") != Some(Scalar("array")) || SameAt(y, z, "items"))
    ensures SchemaOf(y) == SchemaOf(z)
  {
    hide SameAt, MappingChild, ComboOf, EntriesOf, ItemsOf, Listed, ScalarChild;
    SameCombo(y, z);
    SameItems(y, z);
    SameEntries(y, z);
    SameList(y, z, "$ref");
    SameList(y, z, "allOf");
    SameList(y, z, "required");
    SameReadings(y, z);
  }

  lemma FindAround(a: seq<Entry>, e: Entry, b: seq<Entry>, key: string)
    ensures key != e.key || !Lacks(a, key) ==> FindEntry(a + [e] + b, key) == FindEntry(a + b, key)
  {
    FindInParts(a, b, key);
    FindInParts(a + [e], b, key);
    FindInParts(a, [e], key);
    LacksParts(a, [e], key);
    if key != e.key {
      FindNothing([e], key);
    }
  }

  lemma ChildAround(a: seq<Entry>, e: Entry, b: seq<Entry>, key: string)
    requires key != e.key || !Lacks(a, key)
    ensures SameAt(Mapping(a + [e] + b), Mapping(a + b), key)
  {
    FindAround(a, e, b, key);
  }

  /** An entry that is no keyword, or repeats an earlier key, means nothing. */
  lemma OtherEntriesMeanNothing(a: seq<Entry>, e: Entry, b: seq<Entry>)
    requires e.key !in KEYWORDS || !Lacks(a, e.key)
    ensures SchemaOf(Mapping(a + [e] + b)) == SchemaOf(Mapping(a + b))
  {
    hide SameAt, Lacks;
    forall key | key in KEYWORDS {
      ChildAround(a, e, b, key);
    }
    SameKeywords(Mapping(a + [e] + b), Mapping(a + b));
  }

  lemma OthersAround(a: seq<Entry>, e: Entry, b: seq<Entry>)
    ensures forall key | key != e.key :: SameAt(Mapping(a + [e] + b), Mapping(a + b), key)
  {
    forall key | key != e.key {
      ChildAround(a, e, b, key);
    }
  }

  /** Beside `oneOf`, wherever it stands, an `anyOf` means nothing. */
  lemma OneOfHidesAnyOf(a: seq<Entry>, y: Yaml, b: seq<Entry>)
    requires FindEntry(a + b, "oneOf").Some?
    ensures SchemaOf(Mapping(a + [Entry("anyOf", y)] + b)) == SchemaOf(Mapping(a + b))
  {
    hide SameAt, FindEntry, MappingChild, Lacks;
    OthersAround(a, Entry("anyOf", y), b);
    ChildIsEntry(a + [Entry("anyOf", y)] + b, "oneOf");
    FindAround(a, Entry("anyOf", y), b, "oneOf");
    SameKeywords(Mapping(a + [Entry("anyOf", y)] + b), Mapping(a + b));
  }

  lemma ChildIsEntry(entries: seq<Entry>, key: string)
    ensures MappingChild(Mapping(entries), key) == FindEntry(entries, key)
  {
  }

  /** Under any other type than `array`, `items` means nothing. */
  lemma ItemsNeedArray(a: seq<Entry>, y: Yaml, b: seq<Entry>)
    requires FindEntry(a + b, "type") != Some(Scalar("array"))
    ensures SchemaOf(Mapping(a + [Entry("items", y)] + b)) == SchemaOf(Mapping(a + b))
  {
    hide SameAt, FindEntry, MappingChild;
    OthersAround(a, Entry("items", y), b);
    ChildIsEntry(a + [Entry("items", y)] + b, "type");
    FindAround(a, Entry("items", y), b, "type");
    SameKeywords(Mapping(a + [Entry("items", y)] + b), Mapping(a + b));
  }

  lemma FindSwapped(a: seq<Entry>, e: Entry, f: Entry, b: seq<Entry>, key: string)
    requires e.key != f.key
    ensures FindEntry(a + [e, f] + b, key) == FindEntry(a + [f, e] + b, key)
  {
    hide FindEntry;
    assert a + [e, f] + b == (a + [e]) + ([f] + b) && a + [f, e] + b == (a + [f]) + ([e] + b);
    FindInParts(a + [e], [f] + b, key);
    FindInParts(a + [f], [e] + b, key);
    FindInParts(a, [e], key);
    FindInParts(a, [f], key);
    FindInParts([e], b, key);
    FindInParts([f], b, key);
    LacksParts(a, [e], key);
    LacksParts(a, [f], key);
    FindOnly(e, key);
    FindOnly(f, key);
  }

  /** The order of different keys does not matter. */
  lemma OrderMeansNothing(a: seq<Entry>, e: Entry, f: Entry, b: seq<Entry>)
    requires e.key != f.key
    ensures SchemaOf(Mapping(a + [e, f] + b)) == SchemaOf(Mapping(a + [f, e] + b))
  {
    var y, z := Mapping(a + [e, f] + b), Mapping(a + [f, e] + b);
    hide FindEntry;
    forall key
      ensures MappingChild(y, key) == MappingChild(z, key)
    {
      FindSwapped(a, e, f, b, key);
    }
    SameChildren(y, z);
  }

  lemma SameChildren(y: Yaml, z: Yaml)
    requires forall key :: MappingChild(y, key) == MappingChild(z, key)
    ensures SchemaOf(y) == SchemaOf(z)
  {
    hide MappingChild;
    forall key
      ensures SameAt(y, z, key)
    {
    }
    hide SameAt;
    SameKeywords(y, z);
  }

  /** A keyword whose value is of the wrong kind means nothing: a `$ref` that is no
      scalar, a list keyword that is no sequence, properties that are no mapping. */
  predicate Misplaced(e: Entry) {
    || (e.key == "$ref" && !e.value.Scalar?)
    || ((e.key == "allOf" || e.key == "required") && !e.value.Sequence?)
    || (e.key == "properties" && !e.value.Mapping?)
  }

  lemma MisplacedMeansNothing(a: seq<Entry>, e: Entry, b: seq<Entry>)
    requires Misplaced(e) && Lacks(a, e.key) && Lacks(b, e.key)
    ensures SchemaOf(Mapping(a + [e] + b)) == SchemaOf(Mapping(a + b))
  {
    var y, z := Mapping(a + [e] + b), Mapping(a + b);
    FindAfter(a, e, b);
    LacksParts(a, b, e.key);
    FindNothing(a + b, e.key);
    OthersAround(a, e, b);
    hide FindEntry, SameAt;
    ChildIsEntry(a + [e] + b, e.key);
    ChildIsEntry(a + b, e.key);
    hide MappingChild;
    MisplacedReads(y, z, e);
  }

  lemma MisplacedReads(y: Yaml, z: Yaml, e: Entry)
    requires Misplaced(e) && MappingChild(y, e.key) == Some(e.value) && MappingChild(z, e.key) == None
    requires forall key | key != e.key :: SameAt(y, z, key)
    ensures SchemaOf(y) == SchemaOf(z)
  {
    KeywordsAreFields(y);
    KeywordsAreFields(z);
    hide MappingChild;
    SameCombo(y, z);
    SameItems(y, z);
    forall key | key in {"$ref", "allOf", "required"} && key != e.key {
      SameList(y, z, key);
    }
    if e.key != "properties" {
      SameEntries(y, z);
    }
  }

  const NOTHING := Schema("", [], [], [], [], None)

  /** A document is its first node, and any other node but a mapping says nothing. */
  lemma OtherNodes(y: Yaml, rest: seq<Yaml>)
    ensures !y.Document? ==> SchemaOf(Document([y] + rest)) == SchemaOf(y)
    ensures !y.Document? && !y.Mapping? ==> SchemaOf(y) == NOTHING
  {
    KeywordsAreFields(y);
    if !y.Document? {
      forall key
        ensures MappingChild(Document([y] + rest), key) == MappingChild(y, key)
      {
      }
      SameChildren(Document([y] + rest), y);
    }
  }

  /** A required name is the text of its node: for an alias that of its anchor, and
      for any other node but a scalar it is empty. */
  lemma RequiredTexts(nodes: seq<Yaml>, i: nat)
    requires i < |nodes|
    ensures nodes[i].Scalar? ==> ValuesOf(nodes)[i] == nodes[i].text
    ensures nodes[i].Alias? ==> ValuesOf(nodes)[i] == nodes[i].anchor
    ensures !nodes[i].Scalar? && !nodes[i].Alias? ==> ValuesOf(nodes)[i] == ""
  {
  }

  // ---------- References and depth ----------

  /** A reference names an entry of the component tables by its full path; any
      other reference names nothing. */
  lemma ReferenceIff(c: Components, ref: string, target: Schema)
    ensures ResolveRef(c, ref) == Some(target)
       <==> || (exists name | name in c.schemas :: ref == "#/components/schemas/" + name && target == c.schemas[name])
            || (exists name | name in c.requestBodies ::
                  ref == "#/components/requestBodies/" + name && target == c.requestBodies[name])
  {
    var p, q := "#/components/schemas/", "#/components/requestBodies/";
    assert p[13] != q[13];
    PrefixIff(ref, p);
    PrefixIff(ref, q);
    forall name
      ensures ref == p + name ==> HasPrefix(ref, p) && TrimPrefix(ref, p) == name && ref[13] == 's'
      ensures ref == q + name ==> HasPrefix(ref, q) && TrimPrefix(ref, q) == name && ref[13] == 'r'
    {
      assert ref == p + name ==> ref[|p|..] == name;
      assert ref == q + name ==> ref[|q|..] == name;
    }
  }

  /** k properties around a schema. */
  function Nested(k: nat, s: Schema): Schema {
    if k == 0 then s else Schema("", [], [], [], [Property("a", Nested(k - 1, s))], None)
  }

  function Along(k: nat): seq<Step> {
    if k == 0 then [Prop("x")] else [Prop("a")] + Along(k - 1)
  }

  /** A field required twelve properties down is demanded, and one required any
      deeper is not. */
  lemma TwelveLevels(c: Components, k: nat)
    ensures Demands(c, Nested(k, Schema("", [], [], ["x"], [], None)), 0) == if k <= 12 then {Along(k)} else {}
  {
    NestedDemands(c, k, 0);
  }

  lemma {:induction false} NestedDemands(c: Components, k: nat, depth: nat)
    ensures Demands(c, Nested(k, Schema("", [], [], ["x"], [], None)), depth) == if k + depth <= 12 then {Along(k)} else {}
    decreases Fuel(depth)
  {
    var s := Nested(k, Schema("", [], [], ["x"], [], None));
    if depth <= MAX_DEPTH {
      if k == 0 {
        assert NamedDemands(["x"]) == {[Prop("x")]};
      } else {
        NestedDemands(c, k - 1, depth + 1);
        var props := s.properties;
        assert PropertyDemands(c, props[..0], depth) == {};
      }
    }
  }

  // ---------- From YAML to the verdict ----------

  function TablesOf(c: Components, l: Layout): Tables {
    Tables(map k | k in c.schemas :: YamlOf(c.schemas[k], l), map k | k in c.requestBodies :: YamlOf(c.requestBodies[k], l))
  }

  lemma ReadTables(c: Components, l: Layout)
    requires l.Valid()
    ensures ComponentsOf(TablesOf(c, l)) == c
  {
    hide YamlOf, SchemaOf;
    forall k | k in c.schemas
      ensures SchemaOf(YamlOf(c.schemas[k], l)) == c.schemas[k]
    {
      ReadWritten(c.schemas[k], l);
    }
    forall k | k in c.requestBodies
      ensures SchemaOf(YamlOf(c.requestBodies[k], l)) == c.requestBodies[k]
    {
      ReadWritten(c.requestBodies[k], l);
    }
  }

  /** Compiling a written specification compiles the schema that was written. */
  method CompileWritten(c: Components, s: Schema, l: Layout) returns (required: seq<string>)
    requires l.Valid()
    ensures CompiledFrom(c, s, required)
  {
    ReadTables(c, l);
    ReadWritten(s, l);
    required := CompileBody(TablesOf(c, l), YamlOf(s, l));
  }

  /** For instance the amounts of sub-orders. */
  lemma SubOrderAmounts(tables: Tables, l: Layout)
    requires l.Valid() && ComponentsOf(tables) == NO_COMPONENTS
    ensures var orders := WithProperty("subOrders", ArrayOf(Needs(["amount"])));
            RequiredPaths(ComponentsOf(tables), SchemaOf(YamlOf(orders, l)), "", 0) == {"subOrders[].amount"}
  {
    hide YamlOf, SchemaOf, RequiredPaths;
    ReadWritten(WithProperty("subOrders", ArrayOf(Needs(["amount"]))), l);
    RootPropertyPaths("subOrders", ArrayOf(Needs(["amount"])));
    ArrayPaths(Needs(["amount"]), "subOrders", 1);
    NeedsPaths("amount", "subOrders[]", 2);
    assert "subOrders" + "[]" == "subOrders[]" && "subOrders[]" + "." + "amount" == "subOrders[].amount";
  }

  /** From the YAML text's tree to the answer: a plain document passes exactly when
      it meets every demand of the schema that was written, arrays inside arrays
      aside. */
  method CheckWritten<E>(c: Components, s: Schema, l: Layout, v: Json) returns (verdict: Result<string, E>)
    requires l.Valid() && Tame(c, s, 0) && PlainDoc(v)
    ensures verdict == Ok("") <==> forall p | p in Demands(c, s, 0) && FlatPath(p) :: Holds(v, p)
    ensures Satisfies(c, s, v) ==> verdict == Ok("")
  {
    var required := CompileWritten(c, s, l);
    CompiledCheckDecides<E>(c, s, required, v);
    if Satisfies(c, s, v) {
      CompiledCheckIsSound<E>(c, s, required, v);
    }
    return ValidateBody<E>(Ok(v), required);
  }
}
