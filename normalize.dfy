/**
 * `normalize` and `normalizeList`: flatten direct list children one level,
 * normalize every child, merge adjacent text runs, normalize again and fill
 * the gaps between structural nodes with empty text runs.
 */
module Normalizer {
  import opened Ast
  import opened Merge
  import opened Gaps
  import opened Segments

  /** A direct list child contributes its own children; any other child itself. */
  function Spread(c: Node): seq<Node>
  {
    if c.List? then c.children else [c]
  }

  /** `flatMap(e => e.type === "list" ? e.content : e)`: flattening exactly one level. */
  function Flatten(cs: seq<Node>): (r: seq<Node>)
    ensures MaxHeight(r) <= MaxHeight(cs)
  {
    if cs == [] then []
    else
      var rest := Flatten(cs[1..]);
      MaxHeightAppend(Spread(cs[0]), rest);
      Spread(cs[0]) + rest
  }

  /** `.map(normalize)`. */
  function MapNormalize(s: seq<Node>): (r: seq<Node>)
    decreases MaxHeight(s), 3, |s|
    ensures |r| == |s|
    ensures forall i :: 0 <= i < |s| ==> r[i] == Normalize(s[i])
    ensures MaxHeight(r) <= MaxHeight(s)
  {
    if s == [] then []
    else
      var rest := MapNormalize(s[1..]);
      MaxHeightAppend([Normalize(s[0])], rest);
      [Normalize(s[0])] + rest
  }

  /**
   * `normalizeList`. The second `.map(normalize)` re-normalizes nodes that
   * are already results of `normalize`; it terminates because normalizing
   * never increases the height.
   */
  function NormalizeList(cs: seq<Node>): (r: seq<Node>)
    decreases 1 + MaxHeight(cs), 1, 0
    ensures MaxHeight(r) <= MaxHeight(cs)
  {
    var flat := Flatten(cs);
    var normed := MapNormalize(flat);
    var merged := MergeTexts(normed);
    MergeHeight(normed);
    var renormed := MapNormalize(merged);
    FillHeight(false, renormed);
    GapFill(renormed)
  }

  /**
   * `normalize`: a text is returned as it is; a list or an object keeps its
   * kind (and tag) and gets its children normalized.
   */
  function Normalize(n: Node): (r: Node)
    decreases Height(n), 2, 0
    ensures Height(r) <= Height(n)
    ensures n.Text? ==> r == n
    ensures n.List? <==> r.List?
    ensures n.Object? ==> r.Object? && r.tag == n.tag
  {
    match n
    case Text(_, _) => n
    case List(cs) => List(NormalizeList(cs))
    case Object(tag, cs) => Object(tag, NormalizeList(cs))
  }

  // ---------------------------------------------------------------------
  // Steps of normalizeList
  // ---------------------------------------------------------------------

  /** The four steps of `normalizeList`, one after the other. */
  lemma NormalizeListSteps(cs: seq<Node>)
    ensures NormalizeList(cs) == GapFill(MapNormalize(MergeTexts(MapNormalize(Flatten(cs)))))
  {
  }

  /** `normalizeList` only sees its input through the flattened sequence. */
  lemma NormalizeListSameFlat(a: seq<Node>, b: seq<Node>)
    requires Flatten(a) == Flatten(b)
    ensures NormalizeList(a) == NormalizeList(b)
  {
    NormalizeListSteps(a);
    NormalizeListSteps(b);
  }

  /** Normalizing nodes that are already canonical and free of nested lists changes none of them. */
  lemma MapNormalizeFixed(s: seq<Node>)
    requires forall c :: c in s ==> WellFormed(c) && NoNestedLists(c)
    ensures MapNormalize(s) == s
  {
    forall k | 0 <= k < |s| ensures MapNormalize(s)[k] == s[k] {
      NormalFormFixed(s[k]);
    }
  }

  /** Without list children there is nothing to flatten. */
  lemma {:induction false} FlattenIdentity(cs: seq<Node>)
    requires forall i :: 0 <= i < |cs| ==> !cs[i].List?
    ensures Flatten(cs) == cs
  {
    if cs != [] {
      FlattenIdentity(cs[1..]);
      assert cs == [cs[0]] + cs[1..];
    }
  }

  lemma {:induction false} FlattenAppend(a: seq<Node>, b: seq<Node>)
    ensures Flatten(a + b) == Flatten(a) + Flatten(b)
  {
    if a == [] {
      assert a + b == b;
    } else {
      assert (a + b)[1..] == a[1..] + b;
      FlattenAppend(a[1..], b);
    }
  }

  /** `normalize` maps texts to texts and structural nodes to structural nodes. */
  lemma MapNormalizeKeepsKinds(s: seq<Node>)
    ensures forall i :: 0 <= i < |s| ==> MapNormalize(s)[i].Text? == s[i].Text?
  {
  }

  lemma MapNormalizeNoAdjacentTexts(s: seq<Node>)
    requires NoAdjacentTexts(s)
    ensures NoAdjacentTexts(MapNormalize(s))
  {
    MapNormalizeKeepsKinds(s);
  }

  lemma {:induction false} MapNormalizeKeepsText(s: seq<Node>)
    ensures TextOf(MapNormalize(s)) == TextOf(s)
  {
    if s != [] {
      MapNormalizeKeepsText(s[1..]);
      assert MapNormalize(s)[1..] == MapNormalize(s[1..]);
    }
  }

  lemma {:induction false} MapNormalizeNonTexts(s: seq<Node>)
    ensures NonTexts(MapNormalize(s)) == MapNormalize(NonTexts(s))
  {
    if s != [] {
      MapNormalizeNonTexts(s[1..]);
      var r := MapNormalize(s);
      assert r[1..] == MapNormalize(s[1..]);
      assert NonTexts(r) == (if r[0].Text? then [] else [r[0]]) + NonTexts(r[1..]);
      var head := if s[0].Text? then [] else [s[0]];
      assert NonTexts(s) == head + NonTexts(s[1..]);
      MapNormalizeAppend(head, NonTexts(s[1..]));
    }
  }

  lemma MapNormalizeAppend(a: seq<Node>, b: seq<Node>)
    ensures MapNormalize(a + b) == MapNormalize(a) + MapNormalize(b)
  {
    var l, r := MapNormalize(a + b), MapNormalize(a) + MapNormalize(b);
    assert |l| == |r|;
    forall i | 0 <= i < |l| ensures l[i] == r[i] {
      if i < |a| {
        assert (a + b)[i] == a[i];
      } else {
        assert (a + b)[i] == b[i - |a|];
      }
    }
  }

  // ---------------------------------------------------------------------
  // Properties of normalizeList and normalize
  // ---------------------------------------------------------------------

  /**
   * The result of `normalizeList` is never empty, starts and ends with a
   * text, and alternates text and non-text children.
   */
  lemma NormalizeListNormal(cs: seq<Node>)
    ensures NormalList(NormalizeList(cs))
  {
    var normed := MapNormalize(Flatten(cs));
    var merged := MergeTexts(normed);
    MergeNoAdjacentTexts(normed);
    MapNormalizeNoAdjacentTexts(merged);
    GapFillNormal(MapNormalize(merged));
  }

  /**
   * `normalizeList` keeps the text of the one-level-flattened input: the
   * concatenated strings of the direct text children are the same.
   */
  lemma NormalizeListKeepsText(cs: seq<Node>)
    ensures TextOf(NormalizeList(cs)) == TextOf(Flatten(cs))
  {
    var flat := Flatten(cs);
    var normed := MapNormalize(flat);
    var merged := MergeTexts(normed);
    MapNormalizeKeepsText(flat);
    MergeKeepsText(normed);
    MapNormalizeKeepsText(merged);
    FillKeepsText(false, MapNormalize(merged));
  }

  /**
   * The non-text children of the result are those of the flattened input,
   * in the same order, each normalized twice (once per `.map(normalize)`).
   */
  lemma NormalizeListKeepsNonTexts(cs: seq<Node>)
    ensures NonTexts(NormalizeList(cs)) == MapNormalize(MapNormalize(NonTexts(Flatten(cs))))
  {
    var flat := Flatten(cs);
    var normed := MapNormalize(flat);
    var merged := MergeTexts(normed);
    MapNormalizeNonTexts(flat);
    MergeKeepsNonTexts(normed);
    MapNormalizeNonTexts(merged);
    FillKeepsNonTexts(false, MapNormalize(merged));
  }

  /** Every list that `normalize` produces, at every depth, has the canonical shape. */
  lemma NormalizeWellFormed(n: Node)
    decreases Height(n), 2
    ensures WellFormed(Normalize(n))
  {
    match n
    case Text(_, _) =>
    case List(cs) => NormalizeListWellFormed(cs);
    case Object(_, cs) => NormalizeListWellFormed(cs);
  }

  lemma NormalizeListWellFormed(cs: seq<Node>)
    decreases 1 + MaxHeight(cs), 1
    ensures NormalList(NormalizeList(cs))
    ensures forall c :: c in NormalizeList(cs) ==> WellFormed(c)
  {
    NormalizeListNormal(cs);
    var normed := MapNormalize(Flatten(cs));
    var merged := MergeTexts(normed);
    MergeHeight(normed);
    var renormed := MapNormalize(merged);
    FillElements(false, renormed);
    forall c | c in NormalizeList(cs) ensures WellFormed(c) {
      if c != EmptyText {
        var k :| 0 <= k < |renormed| && renormed[k] == c;
        NormalizeWellFormed(merged[k]);
      }
    }
  }

  /** A tree already in canonical shape and free of nested lists is a fixpoint. */
  lemma {:induction false} NormalFormFixed(n: Node)
    requires WellFormed(n) && NoNestedLists(n)
    ensures Normalize(n) == n
    decreases n, 2
  {
    match n
    case Text(_, _) =>
    case List(cs) => NormalListFixed(cs);
    case Object(_, cs) => NormalListFixed(cs);
  }

  lemma {:induction false} NormalListFixed(cs: seq<Node>)
    requires NormalList(cs)
    requires forall c :: c in cs ==> WellFormed(c) && !c.List? && NoNestedLists(c)
    ensures NormalizeList(cs) == cs
    decreases cs, 1
  {
    NormalizeListSteps(cs);
    ChildrenFixed(cs);
    MergeIdentity(cs);
    GapFillIdentity(cs);
  }

  /** Children that are canonical, not lists and free of nested lists survive flattening and normalizing. */
  lemma {:induction false} ChildrenFixed(cs: seq<Node>)
    requires forall c :: c in cs ==> WellFormed(c) && !c.List? && NoNestedLists(c)
    ensures Flatten(cs) == cs && MapNormalize(cs) == cs
    decreases cs, 0
  {
    forall i | 0 <= i < |cs| ensures !cs[i].List? && Normalize(cs[i]) == cs[i] {
      assert cs[i] in cs;
      NormalFormFixed(cs[i]);
    }
    FlattenIdentity(cs);
  }

  /**
   * `normalize` is idempotent whenever its result has no list directly
   * inside a list (or inside an object's content).
   */
  lemma NormalizeIdempotent(n: Node)
    requires NoNestedLists(Normalize(n))
    ensures Normalize(Normalize(n)) == Normalize(n)
  {
    NormalizeWellFormed(n);
    NormalFormFixed(Normalize(n));
  }

  lemma {:induction false} NonTextsHolds(s: seq<Node>, c: Node)
    requires c in s && !c.Text?
    ensures c in NonTexts(s)
  {
    if s[0] != c {
      assert c in s[1..];
      NonTextsHolds(s[1..], c);
    }
  }

  lemma {:induction false} InNonTexts(s: seq<Node>, c: Node)
    requires c in NonTexts(s)
    ensures c in s
  {
    if s != [] && !(!s[0].Text? && c == s[0]) {
      InNonTexts(s[1..], c);
    }
  }

  /** Every node the fold leaves behind is a (merged) text or one of its input nodes. */
  lemma MergeElements(s: seq<Node>)
    ensures forall c :: c in MergeTexts(s) ==> c.Text? || c in s
  {
    forall c | c in MergeTexts(s) && !c.Text? ensures c in s {
      NonTextsHolds(MergeTexts(s), c);
      MergeKeepsNonTexts(s);
      InNonTexts(s, c);
    }
  }

  /**
   * When every node of the flattened input is in normal form, so is every
   * child `normalizeList` gives: it adds only texts and keeps the other nodes.
   */
  lemma NormalizeListOfFixed(cs: seq<Node>)
    requires forall c :: c in Flatten(cs) ==> Fixed(c)
    ensures forall c :: c in NormalizeList(cs) ==> Fixed(c)
  {
    NormalizeListSteps(cs);
    var flat := Flatten(cs);
    MapNormalizeFixed(flat);
    var merged := MergeTexts(flat);
    MergeElements(flat);
    MapNormalizeFixed(merged);
    FillElements(false, merged);
  }

  // ---------------------------------------------------------------------
  // Where each text ends up
  // ---------------------------------------------------------------------

  /** The joined runs are texts, which `normalize` returns as they are. */
  lemma {:induction false} MapNormalizeLayout(runs: seq<seq<Node>>, nts: seq<Node>)
    requires |runs| == |nts| + 1
    ensures MapNormalize(Layout(runs, nts, false)) == Layout(runs, MapNormalize(nts), false)
    decreases |nts|
  {
    var head := Piece(runs[0], false);
    assert MapNormalize(head) == head;
    if nts != [] {
      var rest := Layout(runs[1..], nts[1..], false);
      MapNormalizeAppend(head + [nts[0]], rest);
      MapNormalizeAppend(head, [nts[0]]);
      MapNormalizeLayout(runs[1..], nts[1..]);
      var m := MapNormalize(nts);
      assert m[1..] == MapNormalize(nts[1..]);
      assert m == [m[0]] + m[1..];
    }
  }

  /** `normalize` keeps every text and the kind of every node, so the runs are the same. */
  lemma {:induction false} RunsMapNormalize(s: seq<Node>)
    ensures Runs(MapNormalize(s)) == Runs(s)
  {
    if s != [] {
      var m := MapNormalize(s);
      var init := s[..|s| - 1];
      assert m[..|m| - 1] == MapNormalize(init);
      RunsMapNormalize(init);
    }
  }

  /**
   * The result of `normalizeList`, completely: the runs of texts of the
   * one-level-flattened input, each joined into one text with its strings
   * concatenated and its first focus request (an empty run gives an empty
   * text), alternating with the input's non-text children, each normalized
   * twice.
   */
  lemma NormalizeListRuns(cs: seq<Node>)
    ensures |Runs(Flatten(cs))| == |NonTexts(Flatten(cs))| + 1
    ensures NormalizeList(cs)
      == Layout(Runs(Flatten(cs)), MapNormalize(MapNormalize(NonTexts(Flatten(cs)))), true)
  {
    var flat := Flatten(cs);
    var normed := MapNormalize(flat);
    var runs, nts1 := Runs(flat), MapNormalize(NonTexts(flat));
    var nts2 := MapNormalize(nts1);
    RunsSplit(flat);
    MergeRuns(normed);
    RunsMapNormalize(flat);
    MapNormalizeNonTexts(flat);
    MapNormalizeLayout(runs, nts1);
    NonTextsNoTexts(flat);
    MapNormalizeKeepsKinds(NonTexts(flat));
    MapNormalizeKeepsKinds(nts1);
    FillLayout(runs, nts2);
    NormalizeListSteps(cs);
  }

  /**
   * Position by position: the `k`-th text child of the result joins the
   * `k`-th run of the flattened input, and the non-text children sit between.
   */
  lemma NormalizeListPositions(cs: seq<Node>)
    ensures var runs, nts := Runs(Flatten(cs)), MapNormalize(MapNormalize(NonTexts(Flatten(cs))));
      && |runs| == |nts| + 1
      && |NormalizeList(cs)| == 2 * |nts| + 1
      && (forall k :: 0 <= k < |runs| ==> NormalizeList(cs)[2 * k] == Joined(runs[k]))
      && (forall k :: 0 <= k < |nts| ==> NormalizeList(cs)[2 * k + 1] == nts[k])
  {
    NormalizeListRuns(cs);
    LayoutFilledAt(Runs(Flatten(cs)), MapNormalize(MapNormalize(NonTexts(Flatten(cs)))));
  }

  /**
   * `[a (start), b, {t}, c, d]` becomes `[ab (start), {t}, cd]`: each run
   * merges on its own side of the object and keeps its own focus request.
   */
  lemma NormalizeListRunsExample()
    ensures var o := Object("t", [EmptyText]);
      NormalizeList([Text("a", Start), Text("b", NoFocus), o, Text("c", NoFocus), Text("d", NoFocus)])
        == [Text("ab", Start), o, Text("cd", NoFocus)]
  {
    var o := Object("t", [EmptyText]);
    var a, b, c, d := Text("a", Start), Text("b", NoFocus), Text("c", NoFocus), Text("d", NoFocus);
    NormalizeListTwoRuns(a, b, o, c, d);
    JoinedPair(a, b);
    JoinedPair(c, d);
    assert "a" + "b" == "ab" && "c" + "d" == "cd";
  }

  lemma JoinedPair(x: Node, y: Node)
    requires x.Text? && y.Text?
    ensures Joined([x, y]) == Text(x.text + y.text, EitherFocus(x.focus, y.focus))
  {
    assert [x][1..] == [];
    assert TextOf([x]) == x.text && FirstFocus([x]) == x.focus;
    assert [x] + [y] == [x, y];
    JoinedSnoc([x], y);
  }

  /** Two runs of two texts around a canonical object merge into one text each. */
  lemma NormalizeListTwoRuns(a: Node, b: Node, o: Node, c: Node, d: Node)
    requires a.Text? && b.Text? && c.Text? && d.Text?
    requires o.Object? && WellFormed(o) && NoNestedLists(o)
    ensures NormalizeList([a, b, o, c, d]) == [Joined([a, b]), o, Joined([c, d])]
  {
    var s := [a, b, o, c, d];
    ExampleParts(a, b, o, c, d);
    NormalizeListRuns(s);
    LayoutTwo([a, b], [c, d], o);
  }

  lemma LayoutTwo(r0: seq<Node>, r1: seq<Node>, o: Node)
    ensures Layout([r0, r1], [o], true) == [Joined(r0), o, Joined(r1)]
  {
    assert [r0, r1][1..] == [r1];
  }

  lemma ExampleParts(a: Node, b: Node, o: Node, c: Node, d: Node)
    requires a.Text? && b.Text? && c.Text? && d.Text?
    requires o.Object? && WellFormed(o) && NoNestedLists(o)
    ensures Flatten([a, b, o, c, d]) == [a, b, o, c, d]
    ensures Runs([a, b, o, c, d]) == [[a, b], [c, d]]
    ensures MapNormalize(MapNormalize(NonTexts([a, b, o, c, d]))) == [o]
  {
    FlattenIdentity([a, b, o, c, d]);
    ExampleRuns(a, b, o, c, d);
    ExampleNonTexts(a, b, o, c, d);
    NormalFormFixed(o);
  }

  lemma ExampleRuns(a: Node, b: Node, o: Node, c: Node, d: Node)
    requires a.Text? && b.Text? && !o.Text? && c.Text? && d.Text?
    ensures Runs([a, b, o, c, d]) == [[a, b], [c, d]]
  {
    var runs := [[a, b], [c, d]];
    assert runs[1..] == [[c, d]];
    assert Rejoin(runs, [o]) == [a, b] + [o] + [c, d];
    assert [a, b] + [o] + [c, d] == [a, b, o, c, d];
    RunsOfRejoin(runs, [o]);
  }

  lemma ExampleNonTexts(a: Node, b: Node, o: Node, c: Node, d: Node)
    requires a.Text? && b.Text? && !o.Text? && c.Text? && d.Text?
    ensures NonTexts([a, b, o, c, d]) == [o]
  {
    assert [a, b, o, c, d] == [a] + [b] + [o] + [c] + [d];
    NonTextsAppend([a] + [b] + [o] + [c], [d]);
    NonTextsAppend([a] + [b] + [o], [c]);
    NonTextsAppend([a] + [b], [o]);
    NonTextsAppend([a], [b]);
    assert [a][1..] == [] && [b][1..] == [] && [o][1..] == [] && [c][1..] == [] && [d][1..] == [];
  }

  // ---------------------------------------------------------------------
  // Scenarios
  // ---------------------------------------------------------------------

  /** An empty child list becomes a single empty text run. */
  lemma NormalizeListEmpty()
    ensures NormalizeList([]) == [EmptyText]
  {
  }

  /**
   * Two adjacent runs merge into one: strings concatenated, the left focus
   * kept when present, otherwise the right one.
   */
  lemma NormalizeListMergesTexts(a: string, f: Focus, b: string, g: Focus)
    ensures NormalizeList([Text(a, f), Text(b, g)]) == [Text(a + b, EitherFocus(f, g))]
  {
    var s := [Text(a, f), Text(b, g)];
    NormalizeListSteps(s);
    FlattenIdentity(s);
    assert MapNormalize(s) == s;
    MergeTwoTexts(a, f, b, g);
    var m := [Text(a + b, EitherFocus(f, g))];
    assert MapNormalize(m) == m;
    GapFillIdentity(m);
  }

  /** A list child is spliced into its parent: `List[List[a, b], c]` is `List[a, b, c]`. */
  lemma FlattenOneLevel(a: Node, b: Node, c: Node)
    requires !a.List? && !b.List? && !c.List?
    ensures Normalize(List([List([a, b]), c])) == Normalize(List([a, b, c]))
  {
    assert Flatten([List([a, b]), c]) == [a, b, c] by {
      assert [List([a, b]), c][1..] == [c];
      FlattenIdentity([c]);
    }
    FlattenIdentity([a, b, c]);
  }

  /**
   * Flattening is one level only: a list nested two levels deep survives as a
   * list child, bordered by empty text runs.
   */
  lemma DeepListSurvives(t: Node)
    requires t.Text?
    ensures Normalize(List([List([List([t])])])) == List([EmptyText, List([t]), EmptyText])
  {
    var inner := List([t]);
    NormalFormFixed(inner);
    assert Flatten([List([inner])]) == [inner] by {
      assert [List([inner])][1..] == [];
    }
    assert MapNormalize([inner]) == [inner];
    NormalizeListFlatFixed([List([inner])], [inner]);
    GapFillLone(inner);
  }

  /** When the flattened children are already normalized and unmergeable, only the gaps are filled. */
  lemma NormalizeListFlatFixed(cs: seq<Node>, s: seq<Node>)
    requires Flatten(cs) == s && MapNormalize(s) == s && NoAdjacentTexts(s)
    ensures NormalizeList(cs) == GapFill(s)
  {
    NormalizeListSteps(cs);
    MergeIdentity(s);
  }

  /** A lone non-text child gets an empty text on either side. */
  lemma GapFillLone(x: Node)
    requires !x.Text?
    ensures GapFill([x]) == [EmptyText, x, EmptyText]
  {
    assert [x][1..] == [];
    assert Fill(false, []) == [EmptyText];
    assert Fill(false, [x]) == [EmptyText] + [x] + Fill(false, []);
  }

  /**
   * `normalize` is not idempotent in general: a text three lists deep first
   * becomes a gap-filled list child, and normalizing again flattens and merges it.
   */
  lemma NormalizeNotIdempotent()
    ensures var n := List([List([List([Text("x", NoFocus)])])]);
      Normalize(Normalize(n)) != Normalize(n)
  {
    var t := Text("x", NoFocus);
    DeepListSurvives(t);
    var once := [EmptyText, List([t]), EmptyText];
    OnceHasListChild(t, once);
    NormalizeListKeepsNonTexts(once);
  }

  lemma OnceHasListChild(t: Node, once: seq<Node>)
    requires t.Text? && once == [EmptyText, List([t]), EmptyText]
    ensures Flatten(once) == [EmptyText, t, EmptyText]
    ensures NonTexts(once) == [List([t])]
    ensures NonTexts(Flatten(once)) == []
  {
    assert once[1..] == [List([t]), EmptyText];
    assert once[1..][1..] == [EmptyText];
    assert NonTexts([EmptyText]) == [];
    assert NonTexts(once[1..]) == [List([t])] + NonTexts([EmptyText]);
    FlattenIdentity([EmptyText]);
    var flat := [EmptyText, t, EmptyText];
    assert flat[1..] == [t, EmptyText];
    assert flat[1..][1..] == [EmptyText];
  }
}
