/**
 * The third step of `normalizeList`: the `reduce` that folds the children
 * left to right and merges every run of adjacent text nodes into one.
 */
module Merge {
  import opened Ast

  /**
   * One step of the fold: when both the last accumulated node and the
   * current one are text, they become one text run whose string is the
   * concatenation and whose focus is `prev.focus || cur.focus`; otherwise
   * the current node is appended.
   */
  function MergeStep(olds: seq<Node>, cur: Node): (r: seq<Node>)
    ensures |olds| <= |r| <= |olds| + 1 && r != []
    ensures r[|r| - 1].Text? <==> cur.Text?
    ensures !cur.Text? ==> r == olds + [cur]
  {
    if |olds| > 0 && olds[|olds| - 1].Text? && cur.Text? then
      var prev := olds[|olds| - 1];
      olds[..|olds| - 1] + [Text(prev.text + cur.text, EitherFocus(prev.focus, cur.focus))]
    else
      olds + [cur]
  }

  /** `reduce(MergeStep, [])`: a left fold, written as recursion on the last element. */
  function MergeTexts(s: seq<Node>): (r: seq<Node>)
    ensures |r| <= |s|
    ensures r == [] <==> s == []
    ensures s != [] ==> (r[|r| - 1].Text? <==> s[|s| - 1].Text?)
  {
    if s == [] then [] else MergeStep(MergeTexts(s[..|s| - 1]), s[|s| - 1])
  }

  /** After the fold no two neighbours are both text. */
  lemma {:induction false} MergeNoAdjacentTexts(s: seq<Node>)
    ensures NoAdjacentTexts(MergeTexts(s))
  {
    if s != [] {
      var olds := MergeTexts(s[..|s| - 1]);
      MergeNoAdjacentTexts(s[..|s| - 1]);
      var cur := s[|s| - 1];
      var r := MergeTexts(s);
      if |olds| > 0 && olds[|olds| - 1].Text? && cur.Text? {
        forall i | 0 < i < |r| ensures !(r[i - 1].Text? && r[i].Text?) {
          if i < |r| - 1 {
            assert r[i - 1] == olds[i - 1] && r[i] == olds[i];
          } else {
            assert r[i - 1] == olds[i - 1];
            assert !olds[i - 1].Text?;
          }
        }
      } else {
        forall i | 0 < i < |r| ensures !(r[i - 1].Text? && r[i].Text?) {
          if i < |r| - 1 {
            assert r[i - 1] == olds[i - 1] && r[i] == olds[i];
          }
        }
      }
    }
  }

  /** The fold neither loses nor reorders text: the concatenation of the text children is kept. */
  lemma {:induction false} MergeKeepsText(s: seq<Node>)
    ensures TextOf(MergeTexts(s)) == TextOf(s)
  {
    if s != [] {
      var init, cur := s[..|s| - 1], s[|s| - 1];
      assert s == init + [cur];
      MergeKeepsText(init);
      TextOfAppend(init, [cur]);
      MergeStepKeepsText(MergeTexts(init), cur);
    }
  }

  lemma MergeStepKeepsText(olds: seq<Node>, cur: Node)
    ensures TextOf(MergeStep(olds, cur)) == TextOf(olds) + TextOf([cur])
  {
    if |olds| > 0 && olds[|olds| - 1].Text? && cur.Text? {
      var front, prev := olds[..|olds| - 1], olds[|olds| - 1];
      var m := Text(prev.text + cur.text, EitherFocus(prev.focus, cur.focus));
      assert olds == front + [prev];
      TextOfAppend(front, [prev]);
      TextOfAppend(front, [m]);
      assert TextOf([m]) == TextOf([prev]) + TextOf([cur]);
    } else {
      TextOfAppend(olds, [cur]);
    }
  }

  /** The fold keeps every non-text child, in order. */
  lemma {:induction false} MergeKeepsNonTexts(s: seq<Node>)
    ensures NonTexts(MergeTexts(s)) == NonTexts(s)
  {
    if s != [] {
      var init, cur := s[..|s| - 1], s[|s| - 1];
      assert s == init + [cur];
      MergeKeepsNonTexts(init);
      NonTextsAppend(init, [cur]);
      MergeStepKeepsNonTexts(MergeTexts(init), cur);
    }
  }

  lemma MergeStepKeepsNonTexts(olds: seq<Node>, cur: Node)
    ensures NonTexts(MergeStep(olds, cur)) == NonTexts(olds) + NonTexts([cur])
  {
    if |olds| > 0 && olds[|olds| - 1].Text? && cur.Text? {
      var front, prev := olds[..|olds| - 1], olds[|olds| - 1];
      var m := Text(prev.text + cur.text, EitherFocus(prev.focus, cur.focus));
      assert olds == front + [prev];
      NonTextsAppend(front, [prev]);
      NonTextsAppend(front, [m]);
    } else {
      NonTextsAppend(olds, [cur]);
    }
  }

  /** A sequence that already has no adjacent texts comes out of the fold unchanged. */
  lemma {:induction false} MergeIdentity(s: seq<Node>)
    requires NoAdjacentTexts(s)
    ensures MergeTexts(s) == s
  {
    if s != [] {
      var init := s[..|s| - 1];
      assert NoAdjacentTexts(init) by {
        forall i | 0 < i < |init| ensures !(init[i - 1].Text? && init[i].Text?) {
          assert init[i - 1] == s[i - 1] && init[i] == s[i];
        }
      }
      MergeIdentity(init);
      assert s == init + [s[|s| - 1]];
    }
  }

  /** Merged text runs have height 0, so the fold never deepens the tree. */
  lemma MergeHeight(s: seq<Node>)
    ensures MaxHeight(MergeTexts(s)) <= MaxHeight(s)
  {
    MergeBounded(s, MaxHeight(s));
    MaxHeightAtMost(MergeTexts(s), MaxHeight(s));
  }

  /** A bound on the height of every input node bounds every node of the fold. */
  lemma {:induction false} MergeBounded(s: seq<Node>, h: nat)
    requires forall i :: 0 <= i < |s| ==> Height(s[i]) <= h
    ensures forall i :: 0 <= i < |MergeTexts(s)| ==> Height(MergeTexts(s)[i]) <= h
  {
    if s != [] {
      var init := s[..|s| - 1];
      assert forall i :: 0 <= i < |init| ==> init[i] == s[i];
      MergeBounded(init, h);
      MergeStepBounded(MergeTexts(init), s[|s| - 1], h);
    }
  }

  lemma MergeStepBounded(olds: seq<Node>, cur: Node, h: nat)
    requires forall i :: 0 <= i < |olds| ==> Height(olds[i]) <= h
    requires Height(cur) <= h
    ensures forall i :: 0 <= i < |MergeStep(olds, cur)| ==> Height(MergeStep(olds, cur)[i]) <= h
  {
    var r := MergeStep(olds, cur);
    forall i | 0 <= i < |r| ensures Height(r[i]) <= h {
      if i < |olds| - 1 {
        assert r[i] == olds[i];
      } else if i == |olds| - 1 {
        assert r[i] == olds[i] || r[i].Text?;
      }
    }
  }

  /** Two adjacent runs `Text(a, f)`, `Text(b, g)` become `Text(a + b, f || g)`. */
  lemma MergeTwoTexts(a: string, f: Focus, b: string, g: Focus)
    ensures MergeTexts([Text(a, f), Text(b, g)]) == [Text(a + b, EitherFocus(f, g))]
  {
    var s := [Text(a, f), Text(b, g)];
    assert s[..1] == [Text(a, f)];
    assert [Text(a, f)][..0] == [];
    assert MergeTexts([Text(a, f)]) == [Text(a, f)];
    assert [Text(a, f)][..0] + [Text(a + b, EitherFocus(f, g))] == [Text(a + b, EitherFocus(f, g))];
  }

  /**
   * A text put in front of a sequence that starts with a text and has no
   * adjacent texts merges with that first text and with nothing else.
   */
  lemma {:induction false} MergeFront(a: Node, s: seq<Node>)
    requires a.Text? && s != [] && s[0].Text? && NoAdjacentTexts(s)
    ensures MergeTexts([a] + s) == [Text(a.text + s[0].text, EitherFocus(a.focus, s[0].focus))] + s[1..]
  {
    var m := Text(a.text + s[0].text, EitherFocus(a.focus, s[0].focus));
    if |s| == 1 {
      MergeTwoTexts(a.text, a.focus, s[0].text, s[0].focus);
    } else {
      var init, x := s[..|s| - 1], s[|s| - 1];
      assert NoAdjacentTexts(init) by {
        forall i | 0 < i < |init| ensures !(init[i - 1].Text? && init[i].Text?) {
          assert init[i - 1] == s[i - 1] && init[i] == s[i];
        }
      }
      MergeFront(a, init);
      var olds := [m] + init[1..];
      assert olds[|olds| - 1].Text? == s[|s| - 2].Text?;
      MergeAppends([a] + init, olds, x);
      SnocParts(a, m, s);
    }
  }

  /** A node that does not merge with the last accumulated one is appended. */
  lemma MergeAppends(p: seq<Node>, q: seq<Node>, x: Node)
    requires MergeTexts(p) == q && q != [] && !(q[|q| - 1].Text? && x.Text?)
    ensures MergeTexts(p + [x]) == q + [x]
  {
    MergeTextsSnoc(p, x);
  }

  lemma SnocParts(a: Node, m: Node, s: seq<Node>)
    requires |s| > 1
    ensures [a] + s == ([a] + s[..|s| - 1]) + [s[|s| - 1]]
    ensures [m] + s[1..] == ([m] + s[..|s| - 1][1..]) + [s[|s| - 1]]
  {
  }

  lemma MergeTextsSnoc(s: seq<Node>, x: Node)
    ensures MergeTexts(s + [x]) == MergeStep(MergeTexts(s), x)
  {
    assert (s + [x])[..|s|] == s;
  }
}
