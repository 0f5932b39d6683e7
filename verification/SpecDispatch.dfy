/** internal/spec/dispatch.go: running required-field paths on a JSON tree. */
module SpecDispatch {
  import opened Strings
  import opened Wrappers

  /** A decoded JSON document. `Null` doubles as Go's nil: an absent child and
      a child holding null look the same to the checks below. */
  datatype Json =
    | Null
    | Bool(b: bool)
    | Number(text: string)
    | Text(s: string)
    | Array(elems: seq<Json>)
    | Object(fields: map<string, Json>)

  function ChildOf(node: Json, key: string): Json {
    if node.Object? && key in node.fields then node.fields[key] else Null
  }

  // ---------- The interpreter, as written ----------

  function SplitPath(p: string): seq<string> {
    if p == "" then [] else Split(p, '.')
  }

  function JoinRendered(prefix: string, seg: string): string {
    if prefix == "" then seg
    else if HasPrefix(seg, "[") then prefix + seg
    else prefix + "." + seg
  }

  function IndexSegment(idx: nat): string {
    "[" + Decimal(idx) + "]"
  }

  function Descend(node: Json, segs: seq<string>, i: nat, rendered: string): string
    requires i <= |segs|
    decreases |segs| - i, 1, 0
  {
    if i >= |segs| then
      if node.Null? then rendered else ""
    else
      var seg := segs[i];
      if HasSuffix(seg, "[]") then
        var propName := TrimSuffix(seg, "[]");
        var next := ChildOf(node, propName);
        if !next.Array? then ""
        else DescendElems(next.elems, 0, segs, i, JoinRendered(rendered, propName))
      else
        var next := ChildOf(node, seg);
        var r := JoinRendered(rendered, seg);
        if next.Null? then
          if i == |segs| - 1 then r else ""
        else if i == |segs| - 1 then ""
        else Descend(next, segs, i + 1, r)
  }

  /** The `for idx, elem` loop of `descend`, from element `idx` on. */
  function DescendElems(arr: seq<Json>, idx: nat, segs: seq<string>, i: nat, rendered: string): string
    requires idx <= |arr| && i < |segs|
    decreases |segs| - i, 0, |arr| - idx
  {
    if idx == |arr| then ""
    else
      var missing := Descend(arr[idx], segs, i + 1, JoinRendered(rendered, IndexSegment(idx)));
      if missing != "" then missing else DescendElems(arr, idx + 1, segs, i, rendered)
  }

  function FindMissing(doc: Json, path: string): string {
    Descend(doc, SplitPath(path), 0, "")
  }

  function FirstMissing(doc: Json, required: seq<string>): string {
    if required == [] then ""
    else
      var missing := FindMissing(doc, required[0]);
      if missing != "" then missing else FirstMissing(doc, required[1..])
  }

  /** `decoded` is what the JSON decoder made of the body. */
  function ValidateBody<E>(decoded: Result<Json, E>, required: seq<string>): Result<string, E> {
    if required == [] then Ok("")
    else match decoded
      case Err(e) => Err(e)
      case Ok(doc) => Ok(FirstMissing(doc, required))
  }

  /** A body that cannot be decoded is an error exactly when something is
      required: with an empty list it is not looked at. */
  lemma UndecodableIsReportedIff<E>(e: E, required: seq<string>)
    ensures ValidateBody(Err(e), required) == Err(e) <==> required != []
  {
  }

  // ---------- Paths and locations ----------

  /** One step of a required path, and one step of a place in a document. */
  datatype Step = Prop(name: string) | Elem
  datatype Hop = Key(name: string) | Index(idx: nat)

  /** The path with its indices forgotten. */
  function Erase(w: seq<Hop>): (p: seq<Step>)
    ensures |p| == |w|
  {
    seq(|w|, k requires 0 <= k < |w| => if w[k].Key? then Prop(w[k].name) else Elem)
  }

  /** The developer-facing text of a location, continuing from `r`. */
  function RenderFrom(r: string, w: seq<Hop>): string
    decreases |w|
  {
    if w == [] then r
    else RenderFrom(JoinRendered(r, if w[0].Key? then w[0].name else IndexSegment(w[0].idx)), w[1..])
  }

  function HopTo(v: Json, h: Hop): Json {
    match h
    case Key(n) => ChildOf(v, n)
    case Index(i) => if v.Array? && i < |v.elems| then v.elems[i] else Null
  }

  /** The value at a location, `Null` when the location leads nowhere. */
  function At(v: Json, w: seq<Hop>): Json
    decreases |w|
  {
    if w == [] then v else At(HopTo(v, w[0]), w[1..])
  }

  /** `w` is a place where something required along a path is missing: every
      property but the last is there, every index exists, and nothing is at
      the end. */
  ghost predicate IsHole(v: Json, w: seq<Hop>) {
    && At(v, w).Null?
    && (forall k | 0 <= k < |w| && w[k].Index? ::
          At(v, w[..k]).Array? && w[k].idx < |At(v, w[..k]).elems|)
    && (forall k | 0 <= k < |w| - 1 && w[k].Key? :: !At(v, w[..k + 1]).Null?)
  }

  /** `w` comes no later than `u`: they agree, or where they first differ both
      have an index and `w`'s is smaller. */
  ghost predicate NoLater(w: seq<Hop>, u: seq<Hop>) {
    || w == u
    || exists k :: 0 <= k < |w| && k < |u| && w[..k] == u[..k]
                   && w[k].Index? && u[k].Index? && w[k].idx < u[k].idx
  }

  /** What a path demands of a value: a property demand is void when an
      earlier property on the way is absent, an element demand is void when
      there is no array. */
  predicate Holds(v: Json, p: seq<Step>)
    decreases |p|
  {
    if p == [] then !v.Null?
    else match p[0]
      case Prop(n) =>
        var c := ChildOf(v, n);
        if c.Null? then |p| > 1 else Holds(c, p[1..])
      case Elem =>
        v.Array? ==> forall i | 0 <= i < |v.elems| :: Holds(v.elems[i], p[1..])
  }

  /** The first hole a path meets. */
  function FirstHole(v: Json, p: seq<Step>): Option<seq<Hop>>
    decreases |p|, 1, 0
  {
    if p == [] then (if v.Null? then Some([]) else None)
    else match p[0]
      case Prop(n) =>
        var c := ChildOf(v, n);
        if c.Null? then (if |p| == 1 then Some([Key(n)]) else None)
        else Prepend(Key(n), FirstHole(c, p[1..]))
      case Elem =>
        if v.Array? then FirstHoleFrom(v.elems, 0, p[1..]) else None
  }

  function FirstHoleFrom(arr: seq<Json>, idx: nat, p: seq<Step>): Option<seq<Hop>>
    requires idx <= |arr|
    decreases |p|, 2, |arr| - idx
  {
    if idx == |arr| then None
    else
      match FirstHole(arr[idx], p)
      case Some(w) => Some([Index(idx)] + w)
      case None => FirstHoleFrom(arr, idx + 1, p)
  }

  function Prepend(h: Hop, w: Option<seq<Hop>>): Option<seq<Hop>> {
    if w.Some? then Some([h] + w.value) else None
  }

  /** The steps the interpreter takes for a list of path segments. */
  function ReadSegment(seg: string): seq<Step> {
    if HasSuffix(seg, "[]") then [Prop(TrimSuffix(seg, "[]")), Elem] else [Prop(seg)]
  }

  function ReadSegments(segs: seq<string>): seq<Step> {
    if segs == [] then [] else ReadSegment(segs[0]) + ReadSegments(segs[1..])
  }

  function ReadPath(path: string): seq<Step> {
    ReadSegments(SplitPath(path))
  }

  // ---------- The interpreter finds the first hole ----------

  lemma RenderGrows(r: string, w: seq<Hop>)
    requires r != ""
    ensures RenderFrom(r, w) != ""
    decreases |w|
  {
    if w != [] {
      RenderGrows(JoinRendered(r, if w[0].Key? then w[0].name else IndexSegment(w[0].idx)), w[1..]);
    }
  }

  function RenderHole(r: string, w: Option<seq<Hop>>): string {
    if w.Some? then RenderFrom(r, w.value) else ""
  }

  lemma {:induction false} DescendFindsFirstHole(node: Json, segs: seq<string>, i: nat, r: string)
    requires i <= |segs|
    ensures Descend(node, segs, i, r) == RenderHole(r, FirstHole(node, ReadSegments(segs[i..])))
    decreases |segs| - i, 1, 0
  {
    if i < |segs| {
      var seg := segs[i];
      var p := ReadSegments(segs[i..]);
      assert segs[i..][0] == seg && segs[i..][1..] == segs[i + 1..];
      if HasSuffix(seg, "[]") {
        var name := TrimSuffix(seg, "[]");
        assert p == [Prop(name), Elem] + ReadSegments(segs[i + 1..]);
        assert p[1..] == [Elem] + ReadSegments(segs[i + 1..]);
        assert p[1..][1..] == ReadSegments(segs[i + 1..]);
        var next := ChildOf(node, name);
        if next.Array? {
          DescendElemsFindsFirstHole(next.elems, 0, segs, i, JoinRendered(r, name));
          if FirstHole(next, p[1..]).Some? {
            RenderPrepend(r, Key(name), FirstHole(next, p[1..]));
          }
        }
      } else {
        assert p == [Prop(seg)] + ReadSegments(segs[i + 1..]);
        assert p[1..] == ReadSegments(segs[i + 1..]);
        ReadSegmentsEmpty(segs[i + 1..]);
        var next := ChildOf(node, seg);
        assert p[0] == Prop(seg) && (|p| == 1 <==> i == |segs| - 1);
        assert [Key(seg)][1..] == [];
        if !next.Null? {
          DescendFindsFirstHole(next, segs, i + 1, JoinRendered(r, seg));
          if FirstHole(next, p[1..]).Some? {
            RenderPrepend(r, Key(seg), FirstHole(next, p[1..]));
          }
        } else {
          var r' := JoinRendered(r, seg);
          assert RenderFrom(r', []) == r';
        }
      }
    }
  }

  lemma {:induction false} DescendElemsFindsFirstHole(arr: seq<Json>, idx: nat, segs: seq<string>, i: nat, r: string)
    requires idx <= |arr| && i < |segs|
    ensures DescendElems(arr, idx, segs, i, r)
         == RenderHole(r, FirstHoleFrom(arr, idx, ReadSegments(segs[i + 1..])))
    decreases |segs| - i, 0, |arr| - idx
  {
    if idx < |arr| {
      var r' := JoinRendered(r, IndexSegment(idx));
      var p := ReadSegments(segs[i + 1..]);
      DescendFindsFirstHole(arr[idx], segs, i + 1, r');
      DescendElemsFindsFirstHole(arr, idx + 1, segs, i, r);
      match FirstHole(arr[idx], p) {
        case Some(w) =>
          RenderGrows(r', w);
          RenderPrepend(r, Index(idx), Some(w));
        case None =>
      }
    }
  }

  lemma ReadSegmentsEmpty(segs: seq<string>)
    ensures ReadSegments(segs) == [] <==> segs == []
  {
  }

  lemma RenderPrepend(r: string, h: Hop, w: Option<seq<Hop>>)
    requires w.Some?
    ensures RenderHole(r, Prepend(h, w))
         == RenderFrom(JoinRendered(r, if h.Key? then h.name else IndexSegment(h.idx)), w.value)
  {
    assert ([h] + w.value)[1..] == w.value;
  }

  /** `findMissing` reports, for every document and every path string, exactly
      the text of the first hole the path meets. */
  lemma FindMissingIsFirstHole(doc: Json, path: string)
    ensures FindMissing(doc, path) == RenderHole("", FirstHole(doc, ReadPath(path)))
  {
    var segs := SplitPath(path);
    DescendFindsFirstHole(doc, segs, 0, "");
    assert segs[0..] == segs;
  }

  // ---------- What a first hole is ----------

  lemma {:induction false} FirstHoleNoneIffHolds(v: Json, p: seq<Step>)
    ensures FirstHole(v, p).None? <==> Holds(v, p)
    decreases |p|, 1, 0
  {
    if p != [] {
      match p[0] {
        case Prop(n) =>
          FirstHoleNoneIffHolds(ChildOf(v, n), p[1..]);
        case Elem =>
          if v.Array? {
            FirstHoleFromNone(v.elems, 0, p[1..]);
          }
      }
    }
  }

  lemma {:induction false} FirstHoleFromNone(arr: seq<Json>, idx: nat, p: seq<Step>)
    requires idx <= |arr|
    ensures FirstHoleFrom(arr, idx, p).None? <==> forall i | idx <= i < |arr| :: Holds(arr[i], p)
    decreases |p|, 2, |arr| - idx
  {
    if idx < |arr| {
      FirstHoleNoneIffHolds(arr[idx], p);
      FirstHoleFromNone(arr, idx + 1, p);
    }
  }

  lemma AtOneHop(v: Json, h: Hop)
    ensures At(v, [h]) == HopTo(v, h)
  {
    assert [h][1..] == [];
    assert At(HopTo(v, h), []) == HopTo(v, h);
  }

  lemma AtPrepend(v: Json, h: Hop, w: seq<Hop>, k: nat)
    requires k <= |w|
    ensures At(v, ([h] + w)[..k + 1]) == At(HopTo(v, h), w[..k])
  {
    var u := ([h] + w)[..k + 1];
    assert u[0] == h && u[1..] == w[..k];
  }

  lemma {:induction false} HolePrepend(v: Json, h: Hop, w: seq<Hop>)
    requires IsHole(HopTo(v, h), w)
    requires h.Index? ==> v.Array? && h.idx < |v.elems|
    requires h.Key? && w != [] ==> !HopTo(v, h).Null?
    ensures IsHole(v, [h] + w)
  {
    var u := [h] + w;
    AtPrepend(v, h, w, |w|);
    assert u[..|u|] == u && w[..|w|] == w;
    forall k | 0 <= k < |u| && u[k].Index?
      ensures At(v, u[..k]).Array? && u[k].idx < |At(v, u[..k]).elems|
    {
      if k == 0 {
        assert u[..0] == [];
      } else {
        AtPrepend(v, h, w, k - 1);
        assert w[k - 1] == u[k];
      }
    }
    forall k | 0 <= k < |u| - 1 && u[k].Key?
      ensures !At(v, u[..k + 1]).Null?
    {
      AtPrepend(v, h, w, k);
      assert w[..0] == [];
      if k > 0 {
        assert w[k - 1] == u[k] && w[..k] == w[..(k - 1) + 1];
      }
    }
  }

  lemma {:induction false} HoleTail(v: Json, h: Hop, w: seq<Hop>)
    requires IsHole(v, [h] + w)
    ensures IsHole(HopTo(v, h), w)
    ensures h.Index? ==> v.Array? && h.idx < |v.elems|
    ensures h.Key? && w != [] ==> !HopTo(v, h).Null?
  {
    var u := [h] + w;
    AtPrepend(v, h, w, |w|);
    assert u[..|u|] == u && w[..|w|] == w && u[..0] == [];
    assert u[0] == h;
    forall k | 0 <= k < |w| && w[k].Index?
      ensures At(HopTo(v, h), w[..k]).Array? && w[k].idx < |At(HopTo(v, h), w[..k]).elems|
    {
      AtPrepend(v, h, w, k);
      assert u[k + 1] == w[k];
    }
    forall k | 0 <= k < |w| - 1 && w[k].Key?
      ensures !At(HopTo(v, h), w[..k + 1]).Null?
    {
      AtPrepend(v, h, w, k + 1);
      assert u[k + 1] == w[k];
    }
    if h.Key? && w != [] {
      AtPrepend(v, h, w, 0);
      assert u[..0 + 1] == [h] && w[..0] == [];
    }
  }

  lemma ErasePrepend(h: Hop, w: seq<Hop>)
    ensures Erase([h] + w) == [if h.Key? then Prop(h.name) else Elem] + Erase(w)
  {
  }

  lemma EraseSplit(w: seq<Hop>, p: seq<Step>)
    requires p != [] && Erase(w) == p
    ensures w != [] && w == [w[0]] + w[1..] && Erase(w[1..]) == p[1..]
    ensures if p[0].Prop? then w[0] == Key(p[0].name) else w[0].Index?
  {
    assert |w| == |p|;
    assert w == [w[0]] + w[1..];
    ErasePrepend(w[0], w[1..]);
    assert Erase(w)[0] == p[0];
  }

  lemma NoLaterPrepend(h: Hop, w: seq<Hop>, u: seq<Hop>)
    requires NoLater(w, u)
    ensures NoLater([h] + w, [h] + u)
  {
    if w != u {
      var k :| 0 <= k < |w| && k < |u| && w[..k] == u[..k]
               && w[k].Index? && u[k].Index? && w[k].idx < u[k].idx;
      var w', u' := [h] + w, [h] + u;
      assert w'[..k + 1] == [h] + w[..k] && u'[..k + 1] == [h] + u[..k];
      assert w'[k + 1] == w[k] && u'[k + 1] == u[k];
    }
  }

  /** The first hole is a hole of the path, and no other hole of the path comes
      before it. */
  lemma {:induction false} FirstHoleIsLeast(v: Json, p: seq<Step>, w: seq<Hop>)
    requires FirstHole(v, p) == Some(w)
    ensures Erase(w) == p && IsHole(v, w)
    ensures forall u: seq<Hop> | Erase(u) == p && IsHole(v, u) :: NoLater(w, u)
    decreases |p|, 1, 0
  {
    if p == [] {
      assert w == [] && Erase(w) == [];
    } else {
      match p[0] {
        case Prop(n) =>
          var c := ChildOf(v, n);
          AtOneHop(v, Key(n));
          if c.Null? {
            assert w == [Key(n)] + [];
            HolePrepend(v, Key(n), []);
            ErasePrepend(Key(n), []);
            assert Erase(w) == p;
            forall u: seq<Hop> | Erase(u) == p && IsHole(v, u)
              ensures NoLater(w, u)
            {
              EraseSplit(u, p);
              assert u == w;
            }
          } else {
            var w' := FirstHole(c, p[1..]).value;
            FirstHoleIsLeast(c, p[1..], w');
            HolePrepend(v, Key(n), w');
            ErasePrepend(Key(n), w');
            forall u: seq<Hop> | Erase(u) == p && IsHole(v, u)
              ensures NoLater(w, u)
            {
              EraseSplit(u, p);
              HoleTail(v, u[0], u[1..]);
              NoLaterPrepend(Key(n), w', u[1..]);
            }
          }
        case Elem =>
          FirstHoleFromIsLeast(v, 0, p, w);
      }
    }
  }

  ghost predicate StartsFrom(u: seq<Hop>, idx: nat) {
    u != [] && u[0].Index? && u[0].idx >= idx
  }

  lemma {:induction false} FirstHoleFromIsLeast(v: Json, idx: nat, p: seq<Step>, w: seq<Hop>)
    requires v.Array? && idx <= |v.elems| && p != [] && p[0].Elem?
    requires FirstHoleFrom(v.elems, idx, p[1..]) == Some(w)
    ensures Erase(w) == p && IsHole(v, w)
    ensures forall u: seq<Hop> | Erase(u) == p && IsHole(v, u) && StartsFrom(u, idx) :: NoLater(w, u)
    decreases |p|, 0, |v.elems| - idx
  {
    var e := v.elems[idx];
    AtOneHop(v, Index(idx));
    FirstHoleNoneIffHolds(e, p[1..]);
    match FirstHole(e, p[1..]) {
      case Some(w') =>
        FirstHoleIsLeast(e, p[1..], w');
        HolePrepend(v, Index(idx), w');
        ErasePrepend(Index(idx), w');
        forall u: seq<Hop> | Erase(u) == p && IsHole(v, u) && StartsFrom(u, idx)
          ensures NoLater(w, u)
        {
          EraseSplit(u, p);
          if u[0].idx == idx {
            HoleTail(v, u[0], u[1..]);
            NoLaterPrepend(Index(idx), w', u[1..]);
          } else {
            assert w[..0] == u[..0] && w[0].Index? && u[0].Index? && w[0].idx < u[0].idx;
          }
        }
      case None =>
        FirstHoleFromIsLeast(v, idx + 1, p, w);
        forall u: seq<Hop> | Erase(u) == p && IsHole(v, u) && StartsFrom(u, idx)
          ensures NoLater(w, u)
        {
          EraseSplit(u, p);
          if u[0].idx == idx {
            HoleTail(v, u[0], u[1..]);
            HoleMeansNotHolds(e, p[1..], u[1..]);
            assert false;
          }
        }
    }
  }

  lemma {:induction false} HoleMeansNotHolds(v: Json, p: seq<Step>, w: seq<Hop>)
    requires Erase(w) == p && IsHole(v, w)
    ensures !Holds(v, p)
    decreases |p|
  {
    if p == [] {
      assert w == [];
    } else {
      EraseSplit(w, p);
      HoleTail(v, w[0], w[1..]);
      AtOneHop(v, w[0]);
      if w[0].Key? && w[1..] == [] {
        assert w == [w[0]] && |p| == 1;
      } else {
        var inner := HopTo(v, w[0]);
        HoleMeansNotHolds(inner, p[1..], w[1..]);
      }
    }
  }

  // ---------- What a verdict is ----------

  lemma {:induction false} FirstFailing(v: Json, required: seq<string>) returns (k: nat)
    requires FirstMissing(v, required) != ""
    ensures k < |required| && FirstMissing(v, required) == FindMissing(v, required[k])
    ensures forall i | 0 <= i < k :: FindMissing(v, required[i]) == ""
  {
    if FindMissing(v, required[0]) != "" {
      k := 0;
    } else {
      var rest := FirstFailing(v, required[1..]);
      k := rest + 1;
      assert forall i | 1 <= i < |required| :: required[i] == required[1..][i - 1];
    }
  }

  /** Whatever the list and the document, a non-empty verdict is the text of a
      real hole: the least hole of the first failing path of the list, whose
      steps it gives back when its indices are forgotten. */
  lemma VerdictIsFirstHole<E>(required: seq<string>, v: Json, verdict: string) returns (k: nat, w: seq<Hop>)
    requires ValidateBody<E>(Ok(v), required) == Ok(verdict) && verdict != ""
    ensures k < |required| && verdict == FindMissing(v, required[k])
    ensures forall i | 0 <= i < k :: FindMissing(v, required[i]) == ""
    ensures verdict == RenderFrom("", w) && Erase(w) == ReadPath(required[k]) && IsHole(v, w)
    ensures forall u: seq<Hop> | Erase(u) == ReadPath(required[k]) && IsHole(v, u) :: NoLater(w, u)
  {
    k := FirstFailing(v, required);
    FindMissingIsFirstHole(v, required[k]);
    w := FirstHole(v, ReadPath(required[k])).value;
    FirstHoleIsLeast(v, ReadPath(required[k]), w);
  }
}
