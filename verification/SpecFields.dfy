/** The verdicts of the check on the fields of a JSON document themselves: what
    counts as present, and the text a missing field is reported by. */
module SpecFields {
  import opened Strings
  import opened SpecDispatch
  import opened SpecSchema
  import opened SpecMeaning
  import opened SpecLimits
  import opened SpecNames
  import opened SpecPaths
  import opened Wrappers

  /** The document is an object with this key and a value other than null: false,
      zero, and empty strings, arrays and objects count as values. */
  predicate Has(v: Json, n: string) {
    v.Object? && n in v.fields && v.fields[n] != Null
  }

  // ---------- What a schema asks for ----------

  /** A required field is one the document has, and nothing else is asked. */
  lemma RequiredMeansHas(n: string, v: Json)
    ensures Satisfies(NO_COMPONENTS, Needs([n]), v) <==> Has(v, n)
  {
    SatisfiesByKeyword(NO_COMPONENTS, Needs([n]), v);
    assert n in [n];
  }

  /** A property schema is asked of the field's own value, when there is one. */
  lemma PropertyMeansValue(n: string, s: Schema, v: Json)
    ensures Satisfies(NO_COMPONENTS, WithProperty(n, s), v)
       <==> (Has(v, n) ==> Satisfies(NO_COMPONENTS, s, v.fields[n]))
  {
    var w := WithProperty(n, s);
    SatisfiesByKeyword(NO_COMPONENTS, w, v);
    assert w.properties == [Property(n, s)];
    assert w.properties[0] == Property(n, s);
  }

  /** An items schema is asked of every element of an array. */
  lemma ItemsMeanElements(s: Schema, v: Json)
    ensures Satisfies(NO_COMPONENTS, ArrayOf(s), v)
       <==> (v.Array? ==> forall i | 0 <= i < |v.elems| :: Satisfies(NO_COMPONENTS, s, v.elems[i]))
  {
    SatisfiesByKeyword(NO_COMPONENTS, ArrayOf(s), v);
  }

  // ---------- What is reported ----------

  predicate PlainSegment(n: string) {
    n != "" && n[0] != '[' && OneSegmentName(n)
  }

  /** A required name is reported, by itself, exactly when the document lacks it. */
  lemma NameReported(n: string, v: Json)
    requires OneSegmentName(n) && n != ""
    ensures FindMissing(v, n) == if Has(v, n) then "" else n
  {
    OneSegment(n);
  }

  /** A name required inside an optional object is reported exactly when the object
      is there and lacks it. */
  lemma NestedNameReported(a: string, b: string, v: Json)
    requires PlainSegment(a) && PlainSegment(b)
    ensures FindMissing(v, a + "." + b) == if Has(v, a) && !Has(v.fields[a], b) then a + "." + b else ""
  {
    TwoSegments(a, b);
    PlainJoin(a, b);
    var segs := [a, b];
    assert Has(v, a) ==> Descend(v, segs, 0, "") == Descend(v.fields[a], segs, 1, a);
  }

  lemma PlainJoin(r: string, b: string)
    requires r != "" && PlainSegment(b)
    ensures JoinRendered(r, b) == r + "." + b
  {
    assert b[..1] == [b[0]] && [b[0]][0] != "["[0];
  }

  /** A name required of the elements of an array is reported exactly when the field
      is an array with an element that lacks it, by the place of the first such
      element. */
  lemma ElementNameReported(a: string, b: string, v: Json, i: nat)
    requires PlainSegment(a) && PlainSegment(b)
    ensures (forall j | Has(v, a) && v.fields[a].Array? && 0 <= j < |v.fields[a].elems| :: Has(v.fields[a].elems[j], b)) ==>
              FindMissing(v, a + "[]." + b) == ""
    ensures Has(v, a) && v.fields[a].Array? && i < |v.fields[a].elems| && !Has(v.fields[a].elems[i], b)
            && (forall j | 0 <= j < i :: Has(v.fields[a].elems[j], b)) ==>
              FindMissing(v, a + "[]." + b) == a + "[" + Decimal(i) + "]." + b
  {
    TwoSegments(a + "[]", b);
    assert a + "[]" + "." + b == a + "[]." + b;
    SuffixTrim(a);
    var segs := [a + "[]", b];
    if Has(v, a) && v.fields[a].Array? {
      var elems := v.fields[a].elems;
      assert FindMissing(v, a + "[]." + b) == DescendElems(elems, 0, segs, 0, a);
      if forall j | 0 <= j < |elems| :: Has(elems[j], b) {
        ElementsReported(elems, 0, |elems|, segs, a, b);
      } else if i < |elems| && !Has(elems[i], b) && forall j | 0 <= j < i :: Has(elems[j], b) {
        ElementsReported(elems, 0, i, segs, a, b);
      }
    }
  }

  lemma {:induction false} ElementsReported(elems: seq<Json>, k: nat, i: nat, segs: seq<string>, a: string, b: string)
    requires PlainSegment(b) && a != "" && |segs| == 2 && segs[1] == b
    requires k <= i <= |elems| && forall j | k <= j < i :: Has(elems[j], b)
    ensures i == |elems| ==> DescendElems(elems, k, segs, 0, a) == ""
    ensures i < |elems| && !Has(elems[i], b) ==>
              DescendElems(elems, k, segs, 0, a) == a + "[" + Decimal(i) + "]." + b
    decreases i - k
  {
    hide Descend;
    if k < |elems| {
      ElementReported(elems[k], k, segs, a, b);
      if k < i {
        ElementsReported(elems, k + 1, i, segs, a, b);
      }
    }
  }

  lemma ElementReported(elem: Json, k: nat, segs: seq<string>, a: string, b: string)
    requires PlainSegment(b) && a != "" && |segs| == 2 && segs[1] == b
    ensures Descend(elem, segs, 1, JoinRendered(a, IndexSegment(k)))
         == if Has(elem, b) then "" else a + "[" + Decimal(k) + "]." + b
  {
    var r := JoinRendered(a, IndexSegment(k));
    assert IndexSegment(k)[..1] == "[";
    assert r == a + "[" + Decimal(k) + "]";
    PlainJoin(r, b);
    assert r + "." + b == a + "[" + Decimal(k) + "]." + b;
  }

  // ---------- Numerals ----------

  /** The number a text of digits stands for. */
  function NumeralValue(s: string): int {
    if s == "" then 0 else 10 * NumeralValue(s[..|s| - 1]) + (s[|s| - 1] as int - 48)
  }

  /** An index is printed in decimal, without leading zeros. */
  lemma {:induction false} DecimalReads(n: nat)
    ensures NumeralValue(Decimal(n)) == n
    ensures forall i | 0 <= i < |Decimal(n)| :: '0' <= Decimal(n)[i] <= '9'
    ensures n > 0 ==> Decimal(n)[0] != '0'
  {
    DigitReads(n % 10);
    if n < 10 {
      assert Decimal(n)[..0] == "";
    } else {
      DecimalReads(n / 10);
      var front := Decimal(n / 10);
      assert Decimal(n)[..|front|] == front && Decimal(n)[0] == front[0];
    }
  }

  lemma DigitReads(d: nat)
    requires d < 10
    ensures "0123456789"[d] as int == 48 + d
  {
    assert d == 0 || d == 1 || d == 2 || d == 3 || d == 4 || d == 5 || d == 6 || d == 7 || d == 8 || d == 9;
  }
}
