/**
 * The runs of a child sequence: the maximal stretches of text children
 * between its non-text children. The merge step of `normalizeList` turns
 * every non-empty run into one text child, and the gap filler puts an empty
 * text where a run is empty; `Layout` describes both results at once.
 */
module Segments {
  import opened Ast
  import opened Merge
  import opened Gaps

  /** Every node is a text run. */
  predicate AllTexts(s: seq<Node>)
  {
    forall i :: 0 <= i < |s| ==> s[i].Text?
  }

  /** No node is a text run. */
  predicate NoTexts(s: seq<Node>)
  {
    forall i :: 0 <= i < |s| ==> !s[i].Text?
  }

  /**
   * The runs of `s`, left to right: run `k` holds the text children between
   * the `k`-th and the `k + 1`-th non-text child (counting the ends of `s`),
   * so there is one run more than there are non-text children.
   */
  function Runs(s: seq<Node>): (r: seq<seq<Node>>)
    ensures |r| > 0
  {
    if s == [] then [[]]
    else
      var rs := Runs(s[..|s| - 1]);
      var x := s[|s| - 1];
      if x.Text? then rs[..|rs| - 1] + [rs[|rs| - 1] + [x]] else rs + [[]]
  }

  /** One more text joins the last run. */
  lemma RunsSnocText(s: seq<Node>, x: Node)
    requires x.Text?
    ensures Runs(s + [x]) == Runs(s)[..|Runs(s)| - 1] + [Runs(s)[|Runs(s)| - 1] + [x]]
  {
    assert (s + [x])[..|s|] == s;
  }

  /** One more non-text starts a new, empty run. */
  lemma RunsSnocNonText(s: seq<Node>, x: Node)
    requires !x.Text?
    ensures Runs(s + [x]) == Runs(s) + [[]]
  {
    assert (s + [x])[..|s|] == s;
  }

  /** The runs put back together, with the `k`-th non-text child after the `k`-th run. */
  function Rejoin(runs: seq<seq<Node>>, nts: seq<Node>): seq<Node>
    requires |runs| == |nts| + 1
    decreases |nts|
  {
    if nts == [] then runs[0] else runs[0] + [nts[0]] + Rejoin(runs[1..], nts[1..])
  }

  /** The first focus request in a run, reading left to right; none when no text carries one. */
  function FirstFocus(run: seq<Node>): Focus
  {
    if run == [] then NoFocus
    else if run[0].Text? && run[0].focus != NoFocus then run[0].focus
    else FirstFocus(run[1..])
  }

  /** A run as one text: its strings concatenated, with its first focus request. */
  function Joined(run: seq<Node>): Node
  {
    Text(TextOf(run), FirstFocus(run))
  }

  /**
   * What a run becomes in a child list: nothing when it is empty and gaps are
   * not filled, otherwise its joined text (an empty run joins to `EmptyText`).
   */
  function Piece(run: seq<Node>, fill: bool): seq<Node>
  {
    if run == [] && !fill then [] else [Joined(run)]
  }

  /** The joined runs alternating with the non-text children. */
  function Layout(runs: seq<seq<Node>>, nts: seq<Node>, fill: bool): seq<Node>
    requires |runs| == |nts| + 1
    decreases |nts|
  {
    if nts == [] then Piece(runs[0], fill)
    else Piece(runs[0], fill) + [nts[0]] + Layout(runs[1..], nts[1..], fill)
  }

  // ---------------------------------------------------------------------
  // Runs split a sequence at its non-text children
  // ---------------------------------------------------------------------

  lemma {:induction false} NonTextsNoTexts(s: seq<Node>)
    ensures NoTexts(NonTexts(s))
  {
    if s != [] {
      NonTextsNoTexts(s[1..]);
    }
  }

  lemma {:induction false} RejoinSnoc(runs: seq<seq<Node>>, nts: seq<Node>, n: Node, run: seq<Node>)
    requires |runs| == |nts| + 1
    ensures Rejoin(runs + [run], nts + [n]) == Rejoin(runs, nts) + [n] + run
    decreases |nts|
  {
    if nts != [] {
      assert (runs + [run])[1..] == runs[1..] + [run];
      assert (nts + [n])[1..] == nts[1..] + [n];
      RejoinSnoc(runs[1..], nts[1..], n, run);
    } else {
      assert (nts + [n])[1..] == [];
    }
  }

  lemma {:induction false} RejoinExtend(runs: seq<seq<Node>>, nts: seq<Node>, x: Node)
    requires |runs| == |nts| + 1
    ensures Rejoin(runs[..|runs| - 1] + [runs[|runs| - 1] + [x]], nts) == Rejoin(runs, nts) + [x]
    decreases |nts|
  {
    var ext := runs[..|runs| - 1] + [runs[|runs| - 1] + [x]];
    if nts != [] {
      assert ext[1..] == runs[1..][..|runs| - 2] + [runs[1..][|runs| - 2] + [x]];
      RejoinExtend(runs[1..], nts[1..], x);
    }
  }

  /**
   * The runs are texts only, there is one more run than there are non-text
   * children, and putting the runs and the non-texts back together gives
   * the sequence: the runs are exactly the stretches between the non-texts.
   */
  lemma {:induction false} RunsSplit(s: seq<Node>)
    ensures |Runs(s)| == |NonTexts(s)| + 1
    ensures forall k :: 0 <= k < |Runs(s)| ==> AllTexts(Runs(s)[k])
    ensures Rejoin(Runs(s), NonTexts(s)) == s
  {
    if s != [] {
      var init, x := s[..|s| - 1], s[|s| - 1];
      assert s == init + [x];
      RunsSplit(init);
      var rs, nts := Runs(init), NonTexts(init);
      NonTextsAppend(init, [x]);
      assert [x][1..] == [];
      var r := Runs(s);
      if x.Text? {
        assert NonTexts([x]) == [];
        assert NonTexts(s) == nts;
        RunsSnocText(init, x);
        RejoinExtend(rs, nts, x);
        forall k | 0 <= k < |r| ensures AllTexts(r[k]) {
          if k < |rs| - 1 {
            assert r[k] == rs[k];
          } else {
            assert r[k] == rs[k] + [x];
            assert AllTexts(rs[k]);
          }
        }
      } else {
        assert NonTexts([x]) == [x];
        assert NonTexts(s) == nts + [x];
        RunsSnocNonText(init, x);
        RejoinSnoc(rs, nts, x, []);
        assert Rejoin(r, nts + [x]) == init + [x];
        forall k | 0 <= k < |r| ensures AllTexts(r[k]) {
          if k < |rs| {
            assert r[k] == rs[k];
          }
        }
      }
    }
  }

  /** A stretch of texts is one run. */
  lemma {:induction false} RunsAllTexts(s: seq<Node>)
    requires AllTexts(s)
    ensures Runs(s) == [s]
  {
    if s != [] {
      var init := s[..|s| - 1];
      RunsAllTexts(init);
      assert s == init + [s[|s| - 1]];
    }
  }

  /** A non-text node separates the runs before it from the runs after it. */
  lemma {:induction false} RunsAround(s: seq<Node>, n: Node, t: seq<Node>)
    requires !n.Text?
    ensures Runs(s + [n] + t) == Runs(s) + Runs(t)
    decreases |t|
  {
    if t == [] {
      RunsSnocNonText(s, n);
      assert s + [n] + t == s + [n];
    } else {
      var t', x := t[..|t| - 1], t[|t| - 1];
      var u := s + [n] + t';
      assert s + [n] + t == u + [x];
      assert t == t' + [x];
      RunsAround(s, n, t');
      if x.Text? {
        RunsSnocAfterText(Runs(s), Runs(t'), u, t', x);
      } else {
        RunsSnocAfterNonText(Runs(s), Runs(t'), u, t', x);
      }
    }
  }

  lemma RunsSnocAfterText(a: seq<seq<Node>>, b: seq<seq<Node>>, u: seq<Node>, t: seq<Node>, x: Node)
    requires Runs(u) == a + b && Runs(t) == b && x.Text?
    ensures Runs(u + [x]) == a + Runs(t + [x])
  {
    RunsSnocText(u, x);
    RunsSnocText(t, x);
    assert |b| > 0;
    var ab := a + b;
    assert ab[..|ab| - 1] == a + b[..|b| - 1];
    assert ab[|ab| - 1] == b[|b| - 1];
  }

  lemma RunsSnocAfterNonText(a: seq<seq<Node>>, b: seq<seq<Node>>, u: seq<Node>, t: seq<Node>, x: Node)
    requires Runs(u) == a + b && Runs(t) == b && !x.Text?
    ensures Runs(u + [x]) == a + Runs(t + [x])
  {
    RunsSnocNonText(u, x);
    RunsSnocNonText(t, x);
    assert (a + b) + [[]] == a + (b + [[]]);
  }

  /**
   * The converse of `RunsSplit`: stretches of texts joined by non-text nodes
   * are the runs of the sequence they make up.
   */
  lemma {:induction false} RunsOfRejoin(runs: seq<seq<Node>>, nts: seq<Node>)
    requires |runs| == |nts| + 1 && NoTexts(nts)
    requires forall k :: 0 <= k < |runs| ==> AllTexts(runs[k])
    ensures Runs(Rejoin(runs, nts)) == runs
    decreases |nts|
  {
    RunsAllTexts(runs[0]);
    if nts != [] {
      RunsOfRejoin(runs[1..], nts[1..]);
      RunsAround(runs[0], nts[0], Rejoin(runs[1..], nts[1..]));
      assert runs == [runs[0]] + runs[1..];
    }
  }

  // ---------------------------------------------------------------------
  // The merge step joins every non-empty run
  // ---------------------------------------------------------------------

  lemma {:induction false} FirstFocusSnoc(run: seq<Node>, x: Node)
    requires x.Text?
    ensures FirstFocus(run + [x]) == EitherFocus(FirstFocus(run), x.focus)
  {
    if run == [] {
      assert [x][1..] == [];
    } else {
      assert (run + [x])[1..] == run[1..] + [x];
      FirstFocusSnoc(run[1..], x);
    }
  }

  /** Appending a text to a run is the merge of `prev.text + cur.text` with `prev.focus || cur.focus`. */
  lemma JoinedSnoc(run: seq<Node>, x: Node)
    requires x.Text?
    ensures Joined(run + [x]) == Text(Joined(run).text + x.text, EitherFocus(Joined(run).focus, x.focus))
  {
    FirstFocusSnoc(run, x);
    TextOfAppend(run, [x]);
    assert [x][1..] == [];
  }

  lemma {:induction false} LayoutSnoc(runs: seq<seq<Node>>, nts: seq<Node>, n: Node, run: seq<Node>, fill: bool)
    requires |runs| == |nts| + 1
    ensures Layout(runs + [run], nts + [n], fill) == Layout(runs, nts, fill) + [n] + Piece(run, fill)
    decreases |nts|
  {
    if nts != [] {
      assert (runs + [run])[1..] == runs[1..] + [run];
      assert (nts + [n])[1..] == nts[1..] + [n];
      LayoutSnoc(runs[1..], nts[1..], n, run, fill);
    } else {
      assert (nts + [n])[1..] == [];
    }
  }

  /** A text after the last run of a merged sequence merges into that run. */
  lemma MergeStepPiece(front: seq<Node>, run: seq<Node>, x: Node)
    requires front == [] || !front[|front| - 1].Text?
    requires x.Text?
    ensures MergeStep(front + Piece(run, false), x) == front + Piece(run + [x], false)
  {
    if run == [] {
      assert [x][1..] == [];
      assert TextOf([x]) == x.text && FirstFocus([x]) == x.focus;
      assert run + [x] == [x];
      assert Piece([x], false) == [x];
      assert front + Piece(run, false) == front;
    } else {
      JoinedSnoc(run, x);
      var olds := front + [Joined(run)];
      assert olds[..|olds| - 1] == front;
    }
  }

  /**
   * The `reduce` of `normalizeList` joins every non-empty run into one text,
   * whose string is the run's strings and whose focus is the run's first
   * request, drops the empty runs, and keeps the non-texts between them.
   */
  lemma {:induction false} MergeRuns(s: seq<Node>)
    ensures |Runs(s)| == |NonTexts(s)| + 1
    ensures MergeTexts(s) == Layout(Runs(s), NonTexts(s), false)
  {
    RunsSplit(s);
    if s != [] {
      var init, x := s[..|s| - 1], s[|s| - 1];
      assert s == init + [x];
      MergeRuns(init);
      var rs, nts := Runs(init), NonTexts(init);
      NonTextsAppend(init, [x]);
      assert [x][1..] == [];
      assert MergeTexts(s) == MergeStep(MergeTexts(init), x);
      if x.Text? {
        assert NonTexts([x]) == [];
        assert NonTexts(s) == nts;
        RunsSnocText(init, x);
        MergeRunsText(init, x);
      } else {
        assert NonTexts([x]) == [x];
        assert NonTexts(s) == nts + [x];
        RunsSnocNonText(init, x);
        LayoutSnoc(rs, nts, x, [], false);
        assert Piece([], false) == [];
        assert Layout(rs + [[]], nts + [x], false) == MergeTexts(init) + [x];
      }
    }
  }

  /** The step of `MergeRuns` for a text: it extends the last run. */
  lemma MergeRunsText(init: seq<Node>, x: Node)
    requires x.Text?
    requires |Runs(init)| == |NonTexts(init)| + 1
    requires MergeTexts(init) == Layout(Runs(init), NonTexts(init), false)
    ensures MergeStep(MergeTexts(init), x)
      == Layout(Runs(init)[..|Runs(init)| - 1] + [Runs(init)[|Runs(init)| - 1] + [x]], NonTexts(init), false)
  {
    NonTextsNoTexts(init);
    ExtendLastRun(Runs(init), NonTexts(init), x);
  }

  /** A text after a merged layout joins its last run. */
  lemma ExtendLastRun(rs: seq<seq<Node>>, nts: seq<Node>, x: Node)
    requires x.Text? && |rs| == |nts| + 1 && NoTexts(nts)
    ensures MergeStep(Layout(rs, nts, false), x)
      == Layout(rs[..|rs| - 1] + [rs[|rs| - 1] + [x]], nts, false)
  {
    var k := |rs| - 1;
    if nts == [] {
      assert rs[..k] + [rs[k] + [x]] == [rs[0] + [x]];
      assert Layout(rs, nts, false) == [] + Piece(rs[0], false);
      assert Layout([rs[0] + [x]], nts, false) == [] + Piece(rs[0] + [x], false);
      MergeStepPiece([], rs[0], x);
    } else {
      var m := |nts| - 1;
      var front := Layout(rs[..k], nts[..m], false) + [nts[m]];
      LayoutLast(rs, nts, rs[k]);
      LayoutLast(rs[..k] + [rs[k] + [x]], nts, rs[k] + [x]);
      assert (rs[..k] + [rs[k] + [x]])[..k] == rs[..k];
      MergeStepPiece(front, rs[k], x);
    }
  }

  /** A layout with at least one non-text ends with its last non-text, then the last run's piece. */
  lemma LayoutLast(rs: seq<seq<Node>>, nts: seq<Node>, last: seq<Node>)
    requires |rs| == |nts| + 1 && nts != [] && rs[|rs| - 1] == last
    ensures Layout(rs, nts, false)
      == Layout(rs[..|rs| - 1], nts[..|nts| - 1], false) + [nts[|nts| - 1]] + Piece(last, false)
  {
    var k, m := |rs| - 1, |nts| - 1;
    assert rs[k..] == [last];
    assert rs == rs[..k] + rs[k..];
    assert nts[m..] == [nts[m]];
    assert nts == nts[..m] + nts[m..];
    LayoutSnoc(rs[..k], nts[..m], nts[m], last, false);
  }

  // ---------------------------------------------------------------------
  // The gap filler turns every empty run into an empty text
  // ---------------------------------------------------------------------

  /** A run before a non-text child: filling keeps its joined text, or inserts one for an empty run. */
  lemma FillPiece(run: seq<Node>, tail: seq<Node>)
    requires tail != [] && !tail[0].Text?
    ensures Fill(false, Piece(run, false) + tail) == Piece(run, true) + Fill(true, tail)
  {
    if run == [] {
      assert Piece(run, false) + tail == tail;
    } else {
      assert (Piece(run, false) + tail)[1..] == tail;
    }
  }

  /** After a non-text, filling goes on without a gap. */
  lemma FillAfterNonText(n: Node, rest: seq<Node>)
    requires !n.Text?
    ensures Fill(true, [n] + rest) == [n] + Fill(false, rest)
  {
    assert ([n] + rest)[1..] == rest;
  }

  /** Filling the merged layout fills every empty run with an empty text. */
  lemma {:induction false} FillLayout(runs: seq<seq<Node>>, nts: seq<Node>)
    requires |runs| == |nts| + 1 && NoTexts(nts)
    ensures GapFill(Layout(runs, nts, false)) == Layout(runs, nts, true)
    decreases |nts|
  {
    if nts == [] {
      if runs[0] != [] {
        assert [Joined(runs[0])][1..] == [];
        assert Fill(true, []) == [];
      }
    } else {
      FillLayout(runs[1..], nts[1..]);
      FillLayoutStep(runs, nts);
    }
  }

  lemma FillLayoutStep(runs: seq<seq<Node>>, nts: seq<Node>)
    requires |runs| == |nts| + 1 && nts != [] && !nts[0].Text?
    requires GapFill(Layout(runs[1..], nts[1..], false)) == Layout(runs[1..], nts[1..], true)
    ensures GapFill(Layout(runs, nts, false)) == Layout(runs, nts, true)
  {
    var rest := Layout(runs[1..], nts[1..], false);
    var tail := [nts[0]] + rest;
    LayoutUnfold(runs, nts, false);
    LayoutUnfold(runs, nts, true);
    FillPiece(runs[0], tail);
    FillAfterNonText(nts[0], rest);
  }

  lemma LayoutUnfold(runs: seq<seq<Node>>, nts: seq<Node>, fill: bool)
    requires |runs| == |nts| + 1 && nts != []
    ensures Layout(runs, nts, fill) == Piece(runs[0], fill) + ([nts[0]] + Layout(runs[1..], nts[1..], fill))
  {
  }

  /**
   * The filled layout, position by position: the joined `k`-th run at `2k`,
   * the `k`-th non-text child at `2k + 1`.
   */
  lemma {:induction false} LayoutFilledAt(runs: seq<seq<Node>>, nts: seq<Node>)
    requires |runs| == |nts| + 1
    ensures |Layout(runs, nts, true)| == 2 * |nts| + 1
    ensures forall k :: 0 <= k < |runs| ==> Layout(runs, nts, true)[2 * k] == Joined(runs[k])
    ensures forall k :: 0 <= k < |nts| ==> Layout(runs, nts, true)[2 * k + 1] == nts[k]
    decreases |nts|
  {
    if nts != [] {
      LayoutFilledAt(runs[1..], nts[1..]);
      var l, rest := Layout(runs, nts, true), Layout(runs[1..], nts[1..], true);
      assert l == [Joined(runs[0])] + [nts[0]] + rest;
      forall k | 0 < k < |runs| ensures l[2 * k] == Joined(runs[k]) {
        assert l[2 * k] == rest[2 * (k - 1)];
        assert runs[1..][k - 1] == runs[k];
      }
      forall k | 0 < k < |nts| ensures l[2 * k + 1] == nts[k] {
        assert l[2 * k + 1] == rest[2 * (k - 1) + 1];
        assert nts[1..][k - 1] == nts[k];
      }
    }
  }
}
