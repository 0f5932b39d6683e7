/** Which required names the path syntax can carry: the exact condition behind
    the rejected documents of `SpecLimits`. */
module SpecNames {
  import opened Strings
  import opened SpecDispatch
  import opened SpecSchema
  import opened SpecWalker
  import opened SpecMeaning
  import opened SpecLimits
  import opened Wrappers

  predicate DotsOnly(n: string) {
    forall i | 0 <= i < |n| :: n[i] == '.'
  }

  /** The name is one segment, read as itself. */
  predicate OneSegmentName(n: string) {
    '.' !in n && !HasSuffix(n, "[]")
  }

  predicate AllEmpty(segs: seq<string>) {
    forall i | 0 <= i < |segs| :: segs[i] == ""
  }

  // ---------- Names of dots only are never reported ----------

  lemma {:induction false} DotsOnlyIff(n: string)
    ensures DotsOnly(n) <==> AllEmpty(Split(n, '.'))
  {
    if n != "" {
      var init, last := n[..|n| - 1], n[|n| - 1];
      hide Split;
      assert n == init + [last];
      DotsOnlyIff(init);
      SplitGrows(init, last);
    } else {
      assert Split(n, '.') == [""];
    }
  }

  lemma SplitGrows(init: string, last: char)
    ensures AllEmpty(Split(init + [last], '.')) <==> last == '.' && AllEmpty(Split(init, '.'))
  {
    hide Split, AllEmpty;
    var before := Split(init, '.');
    if last == '.' {
      SplitAppend(init, "", '.');
      assert init + ['.'] + "" == init + [last];
      AllEmptySnoc(before, "");
    } else {
      SplitSnoc(init, last, '.');
      AllEmptySnoc(before[..|before| - 1], before[|before| - 1] + [last]);
    }
  }

  lemma AllEmptySnoc(segs: seq<string>, last: string)
    ensures AllEmpty(segs + [last]) <==> AllEmpty(segs) && last == ""
  {
    assert (segs + [last])[|segs|] == last;
    assert forall i | 0 <= i < |segs| :: (segs + [last])[i] == segs[i];
  }

  lemma {:induction false} EmptySegmentsReportNothing(node: Json, segs: seq<string>, i: nat)
    requires i <= |segs| && AllEmpty(segs)
    ensures Descend(node, segs, i, "") == ""
    decreases |segs| - i
  {
    if i < |segs| {
      EmptySegmentsReportNothing(ChildOf(node, ""), segs, i + 1);
    }
  }

  // ---------- A document with a hole at the end of a path ----------

  /** Everything along the path is there, and nothing at its end. */
  function Hollow(p: seq<Step>): Json
    decreases |p|
  {
    if p == [] then Null
    else match p[0]
      case Prop(n) => Object(map[n := Hollow(p[1..])])
      case Elem => Array([Hollow(p[1..])])
  }

  function FirstPlace(p: seq<Step>): seq<Hop> {
    seq(|p|, k requires 0 <= k < |p| => if p[k].Prop? then Key(p[k].name) else Index(0))
  }

  lemma {:induction false} HollowHasHole(p: seq<Step>)
    ensures FirstHole(Hollow(p), p) == Some(FirstPlace(p))
    decreases |p|
  {
    if p == [] {
      assert FirstPlace(p) == [];
    } else {
      HollowHasHole(p[1..]);
      var hop := if p[0].Prop? then Key(p[0].name) else Index(0);
      assert FirstPlace(p) == [hop] + FirstPlace(p[1..]);
      if p[0].Elem? {
        assert FirstHoleFrom([Hollow(p[1..])], 0, p[1..]) == Some([hop] + FirstPlace(p[1..]));
      } else if |p| == 1 {
        assert FirstPlace(p[1..]) == [] && [hop] + [] == [hop];
      } else {
        assert !Hollow(p[1..]).Null?;
      }
    }
  }

  /** Some step of the path has a text. */
  predicate Visible(p: seq<Step>) {
    exists k :: 0 <= k < |p| && (p[k].Elem? || p[k].name != "")
  }

  lemma {:induction false} VisibleRenders(r: string, p: seq<Step>)
    requires r != "" || Visible(p)
    ensures RenderFrom(r, FirstPlace(p)) != ""
    decreases |p|
  {
    if r != "" {
      RenderGrows(r, FirstPlace(p));
    } else {
      var k :| 0 <= k < |p| && (p[k].Elem? || p[k].name != "");
      var text := if p[0].Prop? then p[0].name else IndexSegment(0);
      assert k > 0 ==> p[1..][k - 1] == p[k];
      VisibleRenders(JoinRendered(r, text), p[1..]);
      assert FirstPlace(p)[1..] == FirstPlace(p[1..]);
    }
  }

  lemma {:induction false} SegmentsAreVisible(segs: seq<string>)
    requires !AllEmpty(segs)
    ensures Visible(ReadSegments(segs))
  {
    var here, rest := ReadSegment(segs[0]), ReadSegments(segs[1..]);
    if segs[0] != "" {
      var k := |here| - 1;
      assert (here + rest)[k] == here[k];
    } else {
      var i :| 0 <= i < |segs| && segs[i] != "";
      assert segs[1..][i - 1] == segs[i];
      SegmentsAreVisible(segs[1..]);
      var k :| 0 <= k < |rest| && (rest[k].Elem? || rest[k].name != "");
      assert (here + rest)[|here| + k] == rest[k];
    }
  }

  // ---------- A name of several segments or of an array is rejected somewhere ----------

  lemma HeadIsAnother(n: string)
    requires !OneSegmentName(n)
    ensures ReadPath(n) != [] && ReadPath(n)[0].Prop? && ReadPath(n)[0].name != n
  {
    SplitIsExact(n, '.');
    var first := Split(n, '.')[0];
    assert '.' !in first;
    if '.' !in n {
      OneSegment(n);
    }
  }

  /** It carries the name, and has a hole where the name's text leads. */
  function Carrier(n: string): Json {
    var p := ReadPath(n);
    if p != [] && p[0].Prop? then Object(map[p[0].name := Hollow(p[1..]), n := Bool(true)]) else Null
  }

  lemma CarrierIsRejected(n: string)
    requires !OneSegmentName(n) && !DotsOnly(n)
    ensures !ChildOf(Carrier(n), n).Null? && FindMissing(Carrier(n), n) != ""
  {
    var p := ReadPath(n);
    HeadIsAnother(n);
    DotsOnlyIff(n);
    SegmentsAreVisible(SplitPath(n));
    HollowHasHole(p);
    VisibleRenders("", p);
    assert ChildOf(Carrier(n), p[0].name) == ChildOf(Hollow(p), p[0].name);
    FindMissingIsFirstHole(Carrier(n), n);
  }

  /** A required name is safe, every document that carries it passing, exactly when
      it has no dot and does not end in `[]`, or has nothing but dots. */
  lemma SafeNameIff(n: string)
    ensures RequiredPaths(NO_COMPONENTS, Needs([n]), "", 0) == {n}
    ensures (forall doc | Satisfies(NO_COMPONENTS, Needs([n]), doc) :: FindMissing(doc, n) == "")
       <==> OneSegmentName(n) || DotsOnly(n)
  {
    NeedsPaths(n, "", 0);
    hide RequiredPaths;
    if OneSegmentName(n) || DotsOnly(n) {
      forall doc | Satisfies(NO_COMPONENTS, Needs([n]), doc)
        ensures FindMissing(doc, n) == ""
      {
        CarriedPasses(doc, n);
      }
    } else {
      CarrierIsRejected(n);
      SatisfiesByKeyword(NO_COMPONENTS, Needs([n]), Carrier(n));
    }
  }

  lemma CarriedPasses(doc: Json, n: string)
    requires Satisfies(NO_COMPONENTS, Needs([n]), doc) && (OneSegmentName(n) || DotsOnly(n))
    ensures FindMissing(doc, n) == ""
  {
    SatisfiesByKeyword(NO_COMPONENTS, Needs([n]), doc);
    assert n in [n];
    if DotsOnly(n) {
      DotsOnlyIff(n);
      EmptySegmentsReportNothing(doc, SplitPath(n), 0);
    } else {
      OneSegment(n);
    }
  }
}
