/**
 * The last step of `normalizeList`: an empty text run is inserted at every
 * boundary (before the first child, between two children, after the last)
 * where neither side is a text.
 */
module Gaps {
  import opened Ast

  /**
   * Specification of the gap filler, left to right: `afterText` says whether
   * the node just before `s` (in the output) is a text.
   */
  function Fill(afterText: bool, s: seq<Node>): seq<Node>
    decreases |s|
  {
    if s == [] then (if afterText then [] else [EmptyText])
    else (if !afterText && !s[0].Text? then [EmptyText] else []) + [s[0]] + Fill(s[0].Text?, s[1..])
  }

  function GapFill(s: seq<Node>): seq<Node>
  {
    Fill(false, s)
  }

  /** A boundary needs an empty text when neither neighbour is a text (`?.type !== "text"`). */
  predicate NeedsGap(out: seq<Node>, i: nat)
  {
    (i == 0 || (i - 1 < |out| && !out[i - 1].Text?)) && (i >= |out| || !out[i].Text?)
  }

  /**
   * The source's loop: `for (i = 0; i < outeles.length + 1; i++)`, splicing
   * an empty text in at `i` when the boundary needs one; the bound is re-read
   * while the sequence grows.
   */
  method FillGaps(s: seq<Node>) returns (out: seq<Node>)
    ensures out == GapFill(s)
  {
    out := s;
    var i := 0;
    while i < |out| + 1
      invariant i <= |out| + 1 && i <= |GapFill(s)| + 1
      invariant i <= |out| ==> FilledUpTo(out, i, GapFill(s))
      invariant i == |out| + 1 ==> out == GapFill(s)
      decreases |GapFill(s)| + 1 - i
    {
      if NeedsGap(out, i) {
        StepAtGap(out, i, GapFill(s));
        out := out[..i] + [EmptyText] + out[i..];
      } else if i < |out| {
        StepPastNode(out, i, GapFill(s));
      } else {
        StepAtEnd(out, GapFill(s));
      }
      i := i + 1;
    }
  }

  /**
   * Loop invariant of `FillGaps`: the first `i` nodes of `out` are final, and
   * filling the rest gives the specified result.
   */
  ghost predicate FilledUpTo(out: seq<Node>, i: nat, goal: seq<Node>)
  {
    i <= |out| && out[..i] + Fill(i > 0 && out[i - 1].Text?, out[i..]) == goal
  }

  lemma StepAtGap(out: seq<Node>, i: nat, goal: seq<Node>)
    requires FilledUpTo(out, i, goal) && NeedsGap(out, i)
    ensures FilledUpTo(out[..i] + [EmptyText] + out[i..], i + 1, goal) && i + 1 <= |goal|
  {
    var prefix, tail := out[..i], out[i..];
    var out' := out[..i] + [EmptyText] + out[i..];
    assert out'[..i + 1] == prefix + [EmptyText];
    assert out'[i + 1..] == tail;
    assert Fill(false, tail) == [EmptyText] + Fill(true, tail);
  }

  lemma StepPastNode(out: seq<Node>, i: nat, goal: seq<Node>)
    requires FilledUpTo(out, i, goal) && !NeedsGap(out, i) && i < |out|
    ensures FilledUpTo(out, i + 1, goal) && i + 1 <= |goal|
  {
    var prefix, tail := out[..i], out[i..];
    assert out[..i + 1] == prefix + [out[i]];
    assert out[i + 1..] == tail[1..];
  }

  lemma StepAtEnd(out: seq<Node>, goal: seq<Node>)
    requires FilledUpTo(out, |out|, goal) && !NeedsGap(out, |out|)
    ensures out == goal
  {
    assert out[..|out|] == out;
  }

  // ---------------------------------------------------------------------
  // Properties of the gap filler
  // ---------------------------------------------------------------------

  /**
   * Filling a sequence without adjacent texts (whose first node is not a text
   * when a text precedes it) gives an alternating sequence that ends with a
   * text and starts with the opposite kind of the preceding node.
   */
  lemma {:induction false} FillShape(afterText: bool, s: seq<Node>)
    requires NoAdjacentTexts(s)
    requires afterText ==> s == [] || !s[0].Text?
    ensures var r := Fill(afterText, s);
      && Alternating(r)
      && (r == [] <==> afterText && s == [])
      && (r != [] ==> r[0].Text? != afterText && r[|r| - 1].Text?)
    decreases |s|
  {
    if s != [] {
      var rest := s[1..];
      assert NoAdjacentTexts(rest) by {
        forall i | 0 < i < |rest| ensures !(rest[i - 1].Text? && rest[i].Text?) {
          assert rest[i - 1] == s[i] && rest[i] == s[i + 1];
        }
      }
      assert s[0].Text? ==> rest == [] || !rest[0].Text? by {
        if s[0].Text? && rest != [] {
          assert rest[0] == s[1];
        }
      }
      FillShape(s[0].Text?, rest);
      var tailFill := Fill(s[0].Text?, rest);
      var head := (if !afterText && !s[0].Text? then [EmptyText] else []) + [s[0]];
      var r := Fill(afterText, s);
      assert r == head + tailFill;
      forall i | 0 < i < |r| ensures r[i - 1].Text? != r[i].Text? {
        if i < |head| {
          assert r[i - 1] == EmptyText && r[i] == s[0];
        } else if i == |head| {
          assert r[i - 1] == s[0] && r[i] == tailFill[0];
        } else {
          assert r[i - 1] == tailFill[i - 1 - |head|] && r[i] == tailFill[i - |head|];
        }
      }
    }
  }

  /** After the merge step there are no adjacent texts, so the filled list is in canonical shape. */
  lemma GapFillNormal(s: seq<Node>)
    requires NoAdjacentTexts(s)
    ensures NormalList(GapFill(s))
  {
    FillShape(false, s);
  }

  /** Only empty strings are added: the text of the direct text children is kept. */
  lemma {:induction false} FillKeepsText(afterText: bool, s: seq<Node>)
    ensures TextOf(Fill(afterText, s)) == TextOf(s)
    decreases |s|
  {
    if s == [] {
      assert TextOf([EmptyText]) == "";
    } else {
      var head := (if !afterText && !s[0].Text? then [EmptyText] else []) + [s[0]];
      FillKeepsText(s[0].Text?, s[1..]);
      TextOfAppend(head, Fill(s[0].Text?, s[1..]));
      assert TextOf(head) == TextOf([s[0]]) by {
        if |head| == 2 {
          assert head[1..] == [s[0]];
        }
      }
      assert s == [s[0]] + s[1..];
      TextOfAppend([s[0]], s[1..]);
    }
  }

  /** Only texts are added: the non-text children and their order are kept. */
  lemma {:induction false} FillKeepsNonTexts(afterText: bool, s: seq<Node>)
    ensures NonTexts(Fill(afterText, s)) == NonTexts(s)
    decreases |s|
  {
    if s != [] {
      var head := (if !afterText && !s[0].Text? then [EmptyText] else []) + [s[0]];
      FillKeepsNonTexts(s[0].Text?, s[1..]);
      NonTextsAppend(head, Fill(s[0].Text?, s[1..]));
      assert NonTexts(head) == NonTexts([s[0]]) by {
        if |head| == 2 {
          assert head[1..] == [s[0]];
        }
      }
      assert s == [s[0]] + s[1..];
      NonTextsAppend([s[0]], s[1..]);
    }
  }

  /** Every node of the result is an inserted empty text or a node of the input. */
  lemma {:induction false} FillElements(afterText: bool, s: seq<Node>)
    ensures forall x :: x in Fill(afterText, s) ==> x == EmptyText || x in s
    decreases |s|
  {
    if s != [] {
      FillElements(s[0].Text?, s[1..]);
    }
  }

  lemma FillHeight(afterText: bool, s: seq<Node>)
    ensures MaxHeight(Fill(afterText, s)) <= MaxHeight(s)
  {
    var r := Fill(afterText, s);
    FillElements(afterText, s);
    MaxHeightAtMost(r, MaxHeight(s)) by {
      forall i | 0 <= i < |r| ensures Height(r[i]) <= MaxHeight(s) {
        assert r[i] in r;
        if r[i] != EmptyText {
          var j :| 0 <= j < |s| && s[j] == r[i];
        }
      }
    }
  }

  /** A sequence already in canonical shape needs no gap anywhere. */
  lemma {:induction false} FillIdentity(afterText: bool, s: seq<Node>)
    requires Alternating(s)
    requires s == [] ==> afterText
    requires s != [] ==> s[0].Text? != afterText && s[|s| - 1].Text?
    ensures Fill(afterText, s) == s
    decreases |s|
  {
    if s != [] {
      var rest := s[1..];
      assert Alternating(rest) by {
        forall i | 0 < i < |rest| ensures rest[i - 1].Text? != rest[i].Text? {
          assert rest[i - 1] == s[i] && rest[i] == s[i + 1];
        }
      }
      if rest != [] {
        assert rest[0] == s[1];
        assert rest[|rest| - 1] == s[|s| - 1];
      }
      FillIdentity(s[0].Text?, rest);
      assert s == [s[0]] + rest;
    }
  }

  lemma GapFillIdentity(s: seq<Node>)
    requires NormalList(s)
    ensures GapFill(s) == s
  {
    FillIdentity(false, s);
  }
}
