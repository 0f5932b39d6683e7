/** The text form of required-field paths: what `joinPath` writes
    (internal/spec/walker.go) and what `splitPath` reads back
    (internal/spec/dispatch.go). */
module SpecPaths {
  import opened Strings
  import opened SpecDispatch

  function JoinPath(prefix: string, name: string): string {
    if prefix == "" then name
    else if HasSuffix(prefix, "[]") then prefix + "." + name
    else prefix + "." + name
  }

  /** The text the walker builds for a sequence of steps. */
  function Print(p: seq<Step>): string {
    if p == [] then ""
    else
      var prefix := Print(p[..|p| - 1]);
      match p[|p| - 1]
      case Prop(n) => JoinPath(prefix, n)
      case Elem => prefix + "[]"
  }

  /** Names the path syntax can carry. */
  predicate PlainName(n: string) {
    n != "" && '.' !in n && !HasSuffix(n, "[]")
  }

  predicate PlainPath(p: seq<Step>) {
    forall k | 0 <= k < |p| && p[k].Prop? :: PlainName(p[k].name)
  }

  /** No array at the root and no array directly inside an array. */
  predicate FlatPath(p: seq<Step>) {
    forall k | 0 <= k < |p| && p[k].Elem? :: k > 0 && p[k - 1].Prop?
  }

  /** The dot-separated segments of a printed path. */
  function Segments(p: seq<Step>): (segs: seq<string>)
    ensures p != [] ==> segs != []
  {
    if p == [] then []
    else
      var segs := Segments(p[..|p| - 1]);
      match p[|p| - 1]
      case Prop(n) => segs + [n]
      case Elem => if segs == [] then ["[]"] else segs[..|segs| - 1] + [segs[|segs| - 1] + "[]"]
  }

  lemma PlainPrefix(p: seq<Step>)
    requires p != []
    ensures PlainPath(p) ==> PlainPath(p[..|p| - 1])
    ensures FlatPath(p) ==> FlatPath(p[..|p| - 1])
    ensures p == p[..|p| - 1] + [p[|p| - 1]]
  {
    var init := p[..|p| - 1];
    assert forall k | 0 <= k < |init| :: init[k] == p[k];
  }

  lemma PrintFromLast(p: seq<Step>)
    requires p != []
    ensures var init, last := p[..|p| - 1], p[|p| - 1];
            Print(p) == if last.Elem? then Print(init) + "[]"
                        else if Print(init) == "" then last.name else Print(init) + ['.'] + last.name
  {
  }

  // ---------- Which paths survive their text ----------

  predicate DotFree(p: seq<Step>) {
    forall k | 0 <= k < |p| && p[k].Prop? :: '.' !in p[k].name
  }

  /** A name ending in `[]` only where an array follows. */
  predicate ArraysNamed(p: seq<Step>) {
    forall k | 0 <= k < |p| && p[k].Prop? && HasSuffix(p[k].name, "[]") :: k + 1 < |p| && p[k + 1].Elem?
  }

  /** An empty name at the head only where an array follows. */
  predicate HeadNamed(p: seq<Step>) {
    p != [] && p[0] == Prop("") ==> |p| > 1 && p[1].Elem?
  }

  predicate Survives(p: seq<Step>) {
    FlatPath(p) && DotFree(p) && ArraysNamed(p) && HeadNamed(p)
  }

  lemma TextSegmentsSnoc(init: seq<Step>, last: Step)
    requires init != [] && Split(Print(init), '.') == Segments(init)
    requires last.Prop? ==> Print(init) != "" && '.' !in last.name
    ensures Split(Print(init + [last]), '.') == Segments(init + [last]) && Print(init + [last]) != ""
  {
    PrintFromLast(init + [last]);
    assert (init + [last])[..|init|] == init;
    hide Split, Print;
    match last {
      case Prop(n) =>
        SplitAppend(Print(init), n, '.');
      case Elem =>
        SplitExtend(Print(init), "[]", '.');
    }
  }

  lemma TextSegmentsOne(step: Step)
    requires step.Prop? ==> '.' !in step.name
    ensures Split(Print([step]), '.') == Segments([step]) && (Print([step]) == "" <==> step == Prop(""))
  {
    PrintFromLast([step]);
    assert [step][..0] == [];
    var text := if step.Prop? then step.name else "[]";
    SplitExtend("", text, '.');
    assert "" + text == text;
  }

  lemma {:induction false} TextSegments(p: seq<Step>)
    requires p != [] && DotFree(p) && (|p| > 1 ==> HeadNamed(p))
    ensures Split(Print(p), '.') == Segments(p)
    ensures Print(p) == "" <==> p == [Prop("")]
  {
    hide Split, Print, Segments;
    var init, last := p[..|p| - 1], p[|p| - 1];
    assert last.Prop? ==> '.' !in p[|p| - 1].name;
    assert p == init + [last];
    if init == [] {
      assert p == [last];
      TextSegmentsOne(last);
    } else {
      assert DotFree(init) && (|init| > 1 ==> HeadNamed(init));
      TextSegments(init);
      assert |p| == 2 ==> p[1] == last;
      TextSegmentsSnoc(init, last);
    }
  }

  lemma PrintedSegments(p: seq<Step>)
    requires p != [] && PlainPath(p)
    ensures Print(p) != "" && Split(Print(p), '.') == Segments(p)
  {
    assert p[0].Prop? ==> PlainName(p[0].name);
    TextSegments(p);
  }

  lemma {:induction false} ReadSegmentsAppend(a: seq<string>, x: string)
    ensures ReadSegments(a + [x]) == ReadSegments(a) + ReadSegment(x)
  {
    if a == [] {
      assert [x][1..] == [];
      assert ReadSegments([x]) == ReadSegment(x) + ReadSegments([]);
      assert a + [x] == [x];
    } else {
      assert (a + [x])[1..] == a[1..] + [x];
      ReadSegmentsAppend(a[1..], x);
    }
  }

  lemma CutKeepsArraysNamed(p: seq<Step>, k: nat)
    requires ArraysNamed(p) && FlatPath(p) && k < |p| && p[k].Prop?
    ensures ArraysNamed(p[..k]) && FlatPath(p[..k])
  {
    var q := p[..k];
    forall i | 0 <= i < |q| && q[i].Prop? && HasSuffix(q[i].name, "[]")
      ensures i + 1 < |q| && q[i + 1].Elem?
    {
      assert p[i] == q[i];
    }
  }

  lemma ArraySegment(front: seq<Step>, n: string)
    ensures ReadSegments(Segments(front + [Prop(n), Elem])) == ReadSegments(Segments(front)) + [Prop(n), Elem]
  {
    var p := front + [Prop(n), Elem];
    var init := p[..|p| - 1];
    assert init[..|init| - 1] == front && init[|init| - 1] == Prop(n);
    assert Segments(init) == Segments(front) + [n];
    assert Segments(p) == Segments(front) + [n + "[]"];
    ReadSegmentsAppend(Segments(front), n + "[]");
    SuffixTrim(n);
  }

  lemma NameSegment(init: seq<Step>, n: string)
    requires !HasSuffix(n, "[]")
    ensures ReadSegments(Segments(init + [Prop(n)])) == ReadSegments(Segments(init)) + [Prop(n)]
  {
    assert (init + [Prop(n)])[..|init|] == init;
    ReadSegmentsAppend(Segments(init), n);
  }

  lemma {:induction false} ReadTextSegments(p: seq<Step>)
    requires FlatPath(p) && ArraysNamed(p)
    ensures ReadSegments(Segments(p)) == p
  {
    if p == [] {
      assert ReadSegments(Segments([])) == [];
    } else {
      hide ReadSegments, Segments;
      var init, last := p[..|p| - 1], p[|p| - 1];
      match last {
        case Prop(n) =>
          assert !HasSuffix(p[|p| - 1].name, "[]");
          CutKeepsArraysNamed(p, |p| - 1);
          ReadTextSegments(init);
          assert p == init + [last];
          NameSegment(init, n);
        case Elem =>
          assert |p| > 1 && p[|p| - 2].Prop?;
          var n, front := p[|p| - 2].name, p[..|p| - 2];
          CutKeepsArraysNamed(p, |p| - 2);
          ReadTextSegments(front);
          assert p == front + [Prop(n), Elem];
          ArraySegment(front, n);
      }
    }
  }

  /** Whatever is read from dot-free segments is flat, dot-free, and has names
      ending in `[]` only before arrays. */
  lemma {:induction false} ReadIsTidy(segs: seq<string>)
    requires forall i | 0 <= i < |segs| :: '.' !in segs[i]
    ensures var p := ReadSegments(segs);
            FlatPath(p) && DotFree(p) && ArraysNamed(p) && (p != [] ==> p[0].Prop?)
  {
    if segs != [] {
      ReadIsTidy(segs[1..]);
      var head, tail := ReadSegment(segs[0]), ReadSegments(segs[1..]);
      assert head[0].Prop? && '.' !in head[0].name && (HasSuffix(head[0].name, "[]") ==> |head| == 2);
      TidyAppend(head, tail);
    }
  }

  lemma TidyAppend(head: seq<Step>, tail: seq<Step>)
    requires head != [] && FlatPath(head) && DotFree(head) && ArraysNamed(head) && head[0].Prop?
    requires FlatPath(tail) && DotFree(tail) && ArraysNamed(tail) && (tail != [] ==> tail[0].Prop?)
    ensures FlatPath(head + tail) && DotFree(head + tail) && ArraysNamed(head + tail)
  {
    var p := head + tail;
    forall k | |head| <= k < |p|
      ensures p[k] == tail[k - |head|]
    {
    }
  }

  // An empty head followed by a name is lost: it leaves too few separators.

  function Names(p: seq<Step>): nat {
    if p == [] then 0 else Names(p[..|p| - 1]) + if p[|p| - 1].Prop? then 1 else 0
  }

  lemma {:induction false} NamesAppend(p: seq<Step>, q: seq<Step>)
    ensures Names(p + q) == Names(p) + Names(q)
  {
    if q == [] {
      assert p + q == p;
    } else {
      assert (p + q)[..|p + q| - 1] == p + q[..|q| - 1];
      NamesAppend(p, q[..|q| - 1]);
    }
  }

  lemma {:induction false} OneNamePerSegment(segs: seq<string>)
    ensures Names(ReadSegments(segs)) == |segs|
  {
    if segs != [] {
      OneNamePerSegment(segs[1..]);
      OneName(segs[0]);
      NamesAppend(ReadSegment(segs[0]), ReadSegments(segs[1..]));
    }
  }

  lemma OneName(seg: string)
    ensures Names(ReadSegment(seg)) == 1
  {
    var p := ReadSegment(seg);
    assert p[..1][..0] == [] && Names(p[..1]) == 1;
    if |p| == 2 {
      assert Names(p) == Names(p[..1]);
    } else {
      assert p == p[..1];
    }
  }

  lemma {:induction false} SegmentsAtMostNames(p: seq<Step>)
    requires p != [] && p[0].Prop? && DotFree(p)
    ensures |Split(Print(p), '.')| <= Names(p)
  {
    var init, last := p[..|p| - 1], p[|p| - 1];
    PrintFromLast(p);
    assert last.Prop? ==> '.' !in p[|p| - 1].name;
    if init == [] || (last.Prop? && Print(init) == "") {
      SplitExtend("", last.name, '.');
      assert "" + last.name == last.name;
    } else {
      assert DotFree(init);
      SegmentsAtMostNames(init);
      if last.Prop? {
        SplitAppend(Print(init), last.name, '.');
      } else {
        SplitExtend(Print(init), "[]", '.');
      }
    }
  }

  lemma {:induction false} EmptyHeadIsLost(p: seq<Step>)
    requires |p| > 1 && p[0] == Prop("") && p[1].Prop?
    ensures Print(p) == Print(p[1..])
  {
    var init := p[..|p| - 1];
    assert p[1..][..|p| - 2] == init[1..];
    if |p| == 2 {
      assert init == [Prop("")] && init[1..] == [] && init[..0] == [];
    } else {
      EmptyHeadIsLost(init);
    }
  }

  lemma NamelessHeadIsLost(p: seq<Step>)
    requires DotFree(p) && !HeadNamed(p)
    ensures ReadPath(Print(p)) != p
  {
    if |p| == 1 {
      assert p[..0] == [] && Print(p) == "";
    } else {
      var q := p[1..];
      EmptyHeadIsLost(p);
      assert p == [p[0]] + q && [p[0]][..0] == [];
      NamesAppend([p[0]], q);
      assert DotFree(q);
      SegmentsAtMostNames(q);
      OneNamePerSegment(SplitPath(Print(p)));
    }
  }

  /** `splitPath` undoes `joinPath` exactly for the paths that are flat and whose
      names are free of dots, end in `[]` only before an array, and are not empty
      at the head unless an array follows. */
  lemma ReadPrintedIff(p: seq<Step>)
    ensures ReadPath(Print(p)) == p <==> Survives(p)
  {
    if Survives(p) && p != [] {
      TextSegments(p);
      ReadTextSegments(p);
    }
    if ReadPath(Print(p)) == p {
      if Print(p) != "" {
        SplitIsExact(Print(p), '.');
      }
      ReadIsTidy(SplitPath(Print(p)));
      if !HeadNamed(p) {
        NamelessHeadIsLost(p);
      }
    }
  }

  /** In particular for plain paths without an array inside an array. */
  lemma ReadPrinted(p: seq<Step>)
    requires p != [] && PlainPath(p) && FlatPath(p)
    ensures ReadPath(Print(p)) == p
  {
    forall k | 0 <= k < |p| && p[k].Prop?
      ensures PlainName(p[k].name)
    {
    }
    ReadPrintedIff(p);
  }

  lemma ConcatCancel(a: string, b: string, t: string)
    requires a + t == b + t
    ensures a == b
  {
    assert (a + t)[..|a|] == a;
    assert (b + t)[..|b|] == b;
  }

  lemma DotFreeTails(a: string, m: string, b: string, n: string)
    requires '.' !in m && '.' !in n && a + "." + m == b + "." + n
    ensures a == b && m == n
  {
    var s := a + "." + m;
    assert (b + "." + n)[|b|] == '.' && (a + "." + m)[|a|] == '.';
    assert forall k | |a| < k < |s| :: s[k] in m;
    assert forall k | |b| < k < |s| :: s[k] in n;
    assert s[..|a|] == a && s[|a| + 1..] == m;
    assert s[..|b|] == b && s[|b| + 1..] == n;
  }

  lemma PrintEndsLike(p: seq<Step>)
    requires p != [] && PlainPath(p)
    ensures HasSuffix(Print(p), "[]") <==> p[|p| - 1].Elem?
  {
    var init, last := p[..|p| - 1], p[|p| - 1];
    PlainPrefix(p);
    if last.Prop? {
      assert PlainName(p[|p| - 1].name);
      var s, n := Print(p), last.name;
      assert |n| <= |s| && s[|s| - |n|..] == n;
      if |n| == 1 && |s| >= 2 {
        assert s[|s| - 2] == '.';
      } else if |n| >= 2 {
        assert s[|s| - 2..] == n[|n| - 2..];
      }
    } else {
      assert Print(p)[|Print(p)| - 2..] == "[]";
    }
  }

  /** Printing is injective on plain paths, nested arrays included, so
      intersecting printed paths is intersecting paths. */
  lemma {:induction false} PrintInjective(p: seq<Step>, q: seq<Step>)
    requires PlainPath(p) && PlainPath(q) && Print(p) == Print(q)
    ensures p == q
  {
    if p != [] {
      PrintedSegments(p);
    }
    if q != [] {
      PrintedSegments(q);
    }
    if p != [] && q != [] {
      PrintEndsLike(p);
      PrintEndsLike(q);
      PlainPrefix(p);
      PlainPrefix(q);
      var a, b := p[..|p| - 1], q[..|q| - 1];
      if a != [] {
        PrintedSegments(a);
      }
      if b != [] {
        PrintedSegments(b);
      }
      if p[|p| - 1].Elem? {
        ConcatCancel(Print(a), Print(b), "[]");
        PrintInjective(a, b);
      } else {
        assert PlainName(p[|p| - 1].name) && PlainName(q[|q| - 1].name);
        var m, n := p[|p| - 1].name, q[|q| - 1].name;
        assert b != [] ==> '.' in Print(q) by {
          assert b != [] ==> Print(q)[|Print(b)|] == '.';
        }
        assert a != [] ==> '.' in Print(p) by {
          assert a != [] ==> Print(p)[|Print(a)|] == '.';
        }
        if a != [] && b != [] {
          DotFreeTails(Print(a), m, Print(b), n);
          PrintInjective(a, b);
        }
      }
    }
  }

  // ---------- Paths through an array inside an array ----------

  /** Documents none of whose keys can be mistaken for an array segment. */
  predicate PlainDoc(v: Json) {
    match v
    case Array(elems) => forall i | 0 <= i < |elems| :: PlainDoc(elems[i])
    case Object(fields) => forall k | k in fields :: k != "" && !HasSuffix(k, "[]") && PlainDoc(fields[k])
    case _ => true
  }

  predicate DoubleArraySegment(seg: string) {
    HasSuffix(seg, "[]") && (TrimSuffix(seg, "[]") == "" || HasSuffix(TrimSuffix(seg, "[]"), "[]"))
  }

  lemma FlatExtends(p: seq<Step>)
    requires p != []
    ensures FlatPath(p[..|p| - 1]) && (p[|p| - 1].Prop? || (|p| > 1 && p[|p| - 2].Prop?)) ==> FlatPath(p)
  {
    var init := p[..|p| - 1];
    assert forall k | 0 <= k < |init| :: init[k] == p[k];
  }

  lemma {:induction false} NestedArraySegment(p: seq<Step>)
    requires p != [] && PlainPath(p) && !FlatPath(p)
    ensures exists j :: 0 <= j < |Segments(p)| && DoubleArraySegment(Segments(p)[j])
  {
    var init, last := p[..|p| - 1], p[|p| - 1];
    PlainPrefix(p);
    var segs, inner := Segments(p), Segments(init);
    if init != [] && !FlatPath(init) {
      NestedArraySegment(init);
      var j :| 0 <= j < |inner| && DoubleArraySegment(inner[j]);
      if last.Elem? && j == |inner| - 1 {
        SuffixTrim(inner[j]);
        assert segs[j] == inner[j] + "[]";
      } else {
        assert segs[j] == inner[j];
      }
    } else {
      FlatExtends(p);
      if init == [] {
        assert segs == ["[]"] && "[]"[..0] == "";
        assert DoubleArraySegment(segs[0]);
      } else {
        var x := inner[|inner| - 1];
        assert HasSuffix(x, "[]");
        SuffixTrim(x);
        assert segs[|inner| - 1] == x + "[]";
      }
    }
  }

  lemma SuffixTrim(x: string)
    ensures HasSuffix(x + "[]", "[]") && TrimSuffix(x + "[]", "[]") == x
  {
    assert (x + "[]")[|x + "[]"| - 2..] == "[]";
  }

  lemma ReadSegmentsCons(segs: seq<string>)
    requires segs != []
    ensures ReadSegments(segs)[0].Prop?
    ensures HasSuffix(segs[0], "[]") ==>
              ReadSegments(segs) == [Prop(TrimSuffix(segs[0], "[]"))] + ([Elem] + ReadSegments(segs[1..]))
    ensures !HasSuffix(segs[0], "[]") ==> ReadSegments(segs) == [Prop(segs[0])] + ReadSegments(segs[1..])
  {
    var rest := ReadSegments(segs[1..]);
    if HasSuffix(segs[0], "[]") {
      var name := TrimSuffix(segs[0], "[]");
      assert [Prop(name), Elem] + rest == [Prop(name)] + ([Elem] + rest);
    }
  }

  lemma HoldsProp(v: Json, n: string, p: seq<Step>)
    ensures Holds(v, [Prop(n)] + p) <==> if ChildOf(v, n).Null? then p != [] else Holds(ChildOf(v, n), p)
  {
    assert ([Prop(n)] + p)[1..] == p;
  }

  lemma HoldsElem(v: Json, p: seq<Step>)
    ensures Holds(v, [Elem] + p) <==> (v.Array? ==> forall i | 0 <= i < |v.elems| :: Holds(v.elems[i], p))
  {
    assert ([Elem] + p)[1..] == p;
  }

  lemma {:induction false} DoubleArrayIsVacuous(v: Json, segs: seq<string>, j: nat)
    requires PlainDoc(v) && j < |segs| && DoubleArraySegment(segs[j])
    ensures Holds(v, ReadSegments(segs))
    decreases j
  {
    var rest := segs[1..];
    var q := ReadSegments(rest);
    ReadSegmentsCons(segs);
    if HasSuffix(segs[0], "[]") {
      var name := TrimSuffix(segs[0], "[]");
      var c := ChildOf(v, name);
      HoldsProp(v, name, [Elem] + q);
      HoldsElem(c, q);
      if j > 0 && c.Array? {
        forall i | 0 <= i < |c.elems|
          ensures Holds(c.elems[i], q)
        {
          DoubleArrayIsVacuous(c.elems[i], rest, j - 1);
        }
      }
    } else {
      ReadSegmentsEmpty(rest);
      HoldsProp(v, segs[0], q);
      var c := ChildOf(v, segs[0]);
      if !c.Null? {
        DoubleArrayIsVacuous(c, rest, j - 1);
      }
    }
  }

  /** The interpreter never enters an array that sits directly inside another
      array (or at the root): such a path passes on every plain document. */
  lemma NestedArrayNeverFails(v: Json, p: seq<Step>)
    requires p != [] && PlainPath(p) && !FlatPath(p) && PlainDoc(v)
    ensures FindMissing(v, Print(p)) == ""
  {
    hide PlainPath, FlatPath, PlainDoc, Holds, FirstHole, Print, Split, Segments, DoubleArraySegment, FindMissing;
    PrintedSegments(p);
    NestedArraySegment(p);
    var j :| 0 <= j < |Segments(p)| && DoubleArraySegment(Segments(p)[j]);
    DoubleArrayIsVacuous(v, Segments(p), j);
    FirstHoleNoneIffHolds(v, ReadPath(Print(p)));
    FindMissingIsFirstHole(v, Print(p));
  }

  /** On a flat plain path the interpreter accepts exactly the documents in
      which the path holds. */
  lemma FlatPathCheck(v: Json, p: seq<Step>)
    requires p != [] && PlainPath(p) && FlatPath(p)
    ensures FindMissing(v, Print(p)) == "" <==> Holds(v, p)
  {
    ReadPrinted(p);
    FindMissingIsFirstHole(v, Print(p));
    FirstHoleNoneIffHolds(v, p);
    if FirstHole(v, p).Some? {
      var w := FirstHole(v, p).value;
      FirstHoleIsLeast(v, p, w);
      EraseSplit(w, p);
      assert p[0].Prop? && PlainName(p[0].name);
      RenderGrows(JoinRendered("", w[0].name), w[1..]);
    }
  }
}
