/**
 * The edit closures of the editor's view component: what a text input does
 * when its value changes, what a list or an object does when a child hands
 * it a replacement, and what happens on Backspace at the start of an input.
 * Each closure is a function from the node it acts on (and the event's data)
 * to what it leaves behind or hands to its own parent.
 */
module Edits {
  import opened Ast
  import opened Merge
  import opened Gaps
  import opened Normalizer
  import opened Focusing
  import opened TagSplit

  // ---------------------------------------------------------------------
  // A text input's onChange: split off a new tag, or update the text
  // ---------------------------------------------------------------------

  /**
   * The list the tag split builds from the capture groups: the text before
   * the `{`, a new object whose only child is an empty text asking for the
   * caret at its end, and the text after the space.
   */
  function SplitNodes(m: Split): (r: seq<Node>)
    ensures TextOf(r) == m.prefix + m.suffix
    ensures NonTexts(r) == [Object(m.tag, [Text("", End)])]
  {
    var r := [Text(m.prefix, NoFocus), Object(m.tag, [Text("", End)]), Text(m.suffix, NoFocus)];
    assert r[1..][1..] == [r[2]] && [r[2]][1..] == [];
    assert TextOf([r[2]]) == m.suffix && NonTexts([r[2]]) == [];
    assert TextOf(r[1..]) == m.suffix && NonTexts(r[1..]) == [r[1]];
    r
  }

  /** What a change does: hand a replacement to the parent, or set the node's own text in place. */
  datatype TextEdit = Replace(replacement: Node) | Retext(node: Node)

  /**
   * `onChange` of the input that shows the text node `ele`: when the new
   * value matches the tag pattern, the normalized split list replaces the
   * node; otherwise the node keeps its focus request and takes the new text.
   */
  function OnTextChange(ele: Node, newText: string): (r: TextEdit)
    requires ele.Text?
    ensures r.Replace? <==> MatchTagOpen(newText).Some?
    ensures r.Replace? ==> r.replacement == List(SplitNodes(MatchTagOpen(newText).value))
    ensures r.Retext? ==> r.node.Text? && r.node.text == newText && r.node.focus == ele.focus
  {
    match MatchTagOpen(newText)
    case Some(m) => SplitNodesNormal(m); Replace(Normalize(List(SplitNodes(m))))
    case None => Retext(Text(newText, ele.focus))
  }

  /** The split list is already canonical, so normalizing it changes nothing. */
  lemma SplitNodesNormal(m: Split)
    ensures WellFormed(List(SplitNodes(m))) && NoNestedLists(List(SplitNodes(m)))
    ensures Normalize(List(SplitNodes(m))) == List(SplitNodes(m))
  {
    NormalFormFixed(List(SplitNodes(m)));
  }

  /**
   * A change produces a replacement exactly when the new value matches the
   * pattern; the replacement is the split at the last opening, in canonical
   * shape, with the caret requested inside the new object; without a match
   * the node's text becomes the new value and its focus request is kept.
   */
  lemma OnTextChangeCorrect(ele: Node, newText: string)
    requires ele.Text?
    ensures OnTextChange(ele, newText).Replace? <==> exists m :: IsSplit(newText, m)
    ensures OnTextChange(ele, newText).Replace? ==>
      var m := MatchTagOpen(newText).value;
      && IsSplit(newText, m)
      && (forall m' :: IsSplit(newText, m') ==> |m'.prefix| <= |m.prefix|)
      && OnTextChange(ele, newText).replacement == List(SplitNodes(m))
      && WellFormed(OnTextChange(ele, newText).replacement)
    ensures OnTextChange(ele, newText).Retext? ==>
      OnTextChange(ele, newText).node == Text(newText, ele.focus)
  {
    MatchTagOpenCorrect(newText);
    if MatchTagOpen(newText).Some? {
      SplitNodesNormal(MatchTagOpen(newText).value);
    }
  }

  /** Typing `hello {foo bar` into a text gives `hello `, a new `foo` object with the caret, and `bar`. */
  lemma TypingATag(f: Focus)
    ensures OnTextChange(Text("hello {fo", f), "hello {foo bar")
      == Replace(List([Text("hello ", NoFocus), Object("foo", [Text("", End)]), Text("bar", NoFocus)]))
  {
    MatchHelloFoo();
    SplitNodesNormal(Split("hello ", "foo", "bar"));
  }

  // ---------------------------------------------------------------------
  // A list's replace closure
  // ---------------------------------------------------------------------

  /**
   * `ele.content.splice(i, 1, e)` followed by
   * `replace({ type: "list", content: normalizeList(ele.content) })`: the
   * list the child at `i` turns its parent into.
   */
  function ListReplace(cs: seq<Node>, i: nat, e: Node): (r: Node)
    requires i < |cs|
    ensures r.List? && WellFormed(r)
  {
    NormalizeListWellFormed(cs[i := e]);
    List(NormalizeList(cs[i := e]))
  }

  lemma SpliceParts<T>(s: seq<T>, i: nat, x: T)
    requires i < |s|
    ensures s[i := x] == s[..i] + [x] + s[i + 1..]
  {
  }

  lemma FlattenOne(e: Node)
    ensures Flatten([e]) == Spread(e)
  {
    assert [e][1..] == [];
  }

  /** A non-list followed by a list: the list's children are spliced in after it. */
  lemma FlattenThenList(t: Node, content: seq<Node>)
    requires !t.List?
    ensures Flatten([t, List(content)]) == [t] + content
  {
    assert [t, List(content)] == [t] + [List(content)];
    FlattenAppend([t], [List(content)]);
    FlattenOne(t);
    FlattenOne(List(content));
  }

  lemma FlattenSplice(cs: seq<Node>, i: nat, e: Node)
    requires i < |cs|
    ensures Flatten(cs[i := e]) == Flatten(cs[..i]) + Spread(e) + Flatten(cs[i + 1..])
  {
    SpliceParts(cs, i, e);
    FlattenAppend(cs[..i] + [e], cs[i + 1..]);
    FlattenAppend(cs[..i], [e]);
    FlattenOne(e);
  }

  /**
   * The list a replacement produces is canonical at every depth; its text is
   * the text of the old children before and after `i` with the replacement's
   * text between (a list replacement is flattened into place), and its
   * non-text children are those of that flattened sequence, normalized.
   */
  lemma ListReplaceCorrect(cs: seq<Node>, i: nat, e: Node)
    requires i < |cs|
    ensures ListReplace(cs, i, e).List?
    ensures NormalList(ListReplace(cs, i, e).children)
    ensures forall c :: c in ListReplace(cs, i, e).children ==> WellFormed(c)
    ensures TextOf(ListReplace(cs, i, e).children)
      == TextOf(Flatten(cs[..i])) + TextOf(Spread(e)) + TextOf(Flatten(cs[i + 1..]))
    ensures NonTexts(ListReplace(cs, i, e).children)
      == MapNormalize(MapNormalize(NonTexts(Flatten(cs[..i]) + Spread(e) + Flatten(cs[i + 1..]))))
  {
    NormalizeListWellFormed(cs[i := e]);
    NormalizeListKeepsText(cs[i := e]);
    NormalizeListKeepsNonTexts(cs[i := e]);
    FlattenSplice(cs, i, e);
    TextOfAppend(Flatten(cs[..i]) + Spread(e), Flatten(cs[i + 1..]));
    TextOfAppend(Flatten(cs[..i]), Spread(e));
  }

  /** A canonical sequence of nodes that are themselves canonical and hold no nested list. */
  predicate Steady(cs: seq<Node>)
  {
    NormalList(cs) && forall c :: c in cs ==> WellFormed(c) && !c.List? && NoNestedLists(c)
  }

  /**
   * In a canonical list, a text child that splits off a tag is replaced by
   * the three split nodes, flattened into place, and nothing else changes:
   * its neighbours are not texts, so no merge and no gap happens.
   */
  lemma ListReplaceWithSplit(cs: seq<Node>, i: nat, m: Split)
    requires Steady(cs) && i < |cs| && cs[i].Text?
    ensures ListReplace(cs, i, List(SplitNodes(m))) == List(cs[..i] + SplitNodes(m) + cs[i + 1..])
  {
    var t := cs[..i] + SplitNodes(m) + cs[i + 1..];
    FlattenSplice(cs, i, List(SplitNodes(m)));
    FlattenAround(cs, i);
    SplitKeepsSteady(cs, i, m);
    FlattenSteady(t);
    NormalizeListSameFlat(cs[i := List(SplitNodes(m))], t);
    NormalListFixed(t);
  }

  /** A steady sequence holds no list, so flattening leaves it as it is. */
  lemma FlattenSteady(cs: seq<Node>)
    requires Steady(cs)
    ensures Flatten(cs) == cs
  {
    forall j | 0 <= j < |cs| ensures !cs[j].List? {
      assert cs[j] in cs;
    }
    FlattenIdentity(cs);
  }

  /** The parts of a steady sequence before and after a position flatten to themselves. */
  lemma FlattenAround(cs: seq<Node>, i: nat)
    requires Steady(cs) && i < |cs|
    ensures Flatten(cs[..i]) == cs[..i] && Flatten(cs[i + 1..]) == cs[i + 1..]
  {
    var before, after := cs[..i], cs[i + 1..];
    forall j | 0 <= j < |before| ensures !before[j].List? {
      assert before[j] in cs;
    }
    forall j | 0 <= j < |after| ensures !after[j].List? {
      assert after[j] in cs;
    }
    FlattenIdentity(before);
    FlattenIdentity(after);
  }

  /** Putting the three split nodes in place of a text of a steady sequence keeps it steady. */
  lemma SplitKeepsSteady(cs: seq<Node>, i: nat, m: Split)
    requires Steady(cs) && i < |cs| && cs[i].Text?
    ensures Steady(cs[..i] + SplitNodes(m) + cs[i + 1..])
  {
    SplitAlternates(cs, i, m);
    SplitEnds(cs, i, m);
    SplitNodesNormal(m);
    var t := cs[..i] + SplitNodes(m) + cs[i + 1..];
    forall c | c in t ensures WellFormed(c) && !c.List? && NoNestedLists(c) {
      if c !in SplitNodes(m) {
        assert c in cs[..i] || c in cs[i + 1..];
      }
    }
  }

  lemma SplitAlternates(cs: seq<Node>, i: nat, m: Split)
    requires NormalList(cs) && i < |cs| && cs[i].Text?
    ensures Alternating(cs[..i] + SplitNodes(m) + cs[i + 1..])
  {
    var sn := SplitNodes(m);
    var t := cs[..i] + sn + cs[i + 1..];
    assert |t| == |cs| + 2;
    forall j | 0 < j < |t| ensures t[j - 1].Text? != t[j].Text? {
      if j < i {
        assert t[j - 1] == cs[j - 1] && t[j] == cs[j];
      } else if j == i {
        assert t[j - 1] == cs[i - 1] && t[j] == sn[0];
      } else if j < i + 3 {
        assert t[j - 1] == sn[j - 1 - i] && t[j] == sn[j - i];
      } else if j == i + 3 {
        assert t[j - 1] == sn[2] && t[j] == cs[i + 1];
      } else {
        assert t[j - 1] == cs[j - 3] && t[j] == cs[j - 2];
      }
    }
  }

  lemma SplitEnds(cs: seq<Node>, i: nat, m: Split)
    requires NormalList(cs) && i < |cs|
    ensures var t := cs[..i] + SplitNodes(m) + cs[i + 1..];
      |t| > 0 && t[0].Text? && t[|t| - 1].Text?
  {
    var sn := SplitNodes(m);
    var t := cs[..i] + sn + cs[i + 1..];
    if i > 0 { assert t[0] == cs[0]; } else { assert t[0] == sn[0]; }
    if i < |cs| - 1 { assert t[|t| - 1] == cs[|cs| - 1]; } else { assert t[|t| - 1] == sn[2]; }
  }

  // ---------------------------------------------------------------------
  // A list's backspace closure
  // ---------------------------------------------------------------------

  /** What Backspace at the start of the child at `i` does to the list. */
  datatype Backspace = BubbleUp | Stay(children: seq<Node>)

  /**
   * The backspace closure as written: the first child passes the request to
   * the list's own parent; any other child calls `focusEnd` on a fresh list
   * holding the children before it. The fresh top-level array is reversed
   * and thrown away, but the children are the live nodes: their focus
   * requests, and the order of every list reached inside them, change in
   * the list itself.
   */
  function ListBackspace(cs: seq<Node>, i: nat): (r: Backspace)
    requires i < |cs|
    ensures r.BubbleUp? <==> i == 0
    ensures r.Stay? ==> |r.children| == |cs| && r.children[i..] == cs[i..]
  {
    if i == 0 then BubbleUp
    else Stay(FocusedPrefix(cs[..i]) + cs[i..])
  }

  /**
   * The children `p` as the list holds them after `focusEnd` ran on a fresh
   * list of them: the fresh array's reversal is undone, the changes made
   * inside each child stay.
   */
  function FocusedPrefix(p: seq<Node>): (r: seq<Node>)
    ensures |r| == |p|
    ensures forall k :: 0 <= k < |p| ==> Resembles(r[k], p[k])
  {
    VisitResembles(p, FindFocus(Reverse(p)).nodes);
    Reverse(FocusEnd(List(p)).node.children)
  }

  /**
   * Backspace at the first child bubbles up; elsewhere the list keeps its
   * length, the child and everything after it, and the kind, string, tag and
   * size of every child before it, and the texts before the child are
   * those of before with the last one asking for the caret, up to order.
   */
  lemma ListBackspaceAsWritten(cs: seq<Node>, i: nat)
    requires i < |cs|
    ensures ListBackspace(cs, i).BubbleUp? <==> i == 0
    ensures i > 0 ==>
      var r := ListBackspace(cs, i).children;
      && |r| == |cs| && r[i..] == cs[i..]
      && (forall k :: 0 <= k < i ==> Resembles(r[k], cs[k]))
      && multiset(LeavesOf(r[..i])) == multiset(MarkLastLeaf(LeavesOf(cs[..i])))
  {
    if i > 0 {
      FocusEndOnPrefix(cs[..i]);
      StayShape(cs, i, FocusedPrefix(cs[..i]));
    }
  }

  /**
   * Where the caret goes: when `j` is the last child before `i` that holds a
   * text, the children before `j` are untouched, those between `j` and `i`
   * still hold no text, and the first leaf of child `j` afterwards is its
   * last leaf before, asking for the caret at its end.
   */
  lemma ListBackspaceMarksLastText(cs: seq<Node>, i: nat, j: nat)
    requires j < i < |cs|
    requires Leaves(cs[j]) != [] && forall k :: j < k < i ==> Leaves(cs[k]) == []
    ensures var r := ListBackspace(cs, i).children;
      && |r| == |cs| && r[..j] == cs[..j] && r[i..] == cs[i..]
      && (forall k :: j < k < i ==> Leaves(r[k]) == [])
      && Leaves(r[j]) != [] && Leaves(r[j])[0] == Leaf(Leaves(cs[j])[|Leaves(cs[j])| - 1].text, End)
  {
    var p := cs[..i];
    forall k | j < k < i ensures Leaves(p[k]) == [] {
      assert p[k] == cs[k];
    }
    FocusedPrefixAt(p, j);
    FocusEndMarksLastLeaf(cs[j]);
    StayAround(cs, i, j, FocusedPrefix(p));
  }

  /** `focusEnd` on a fresh list of `p` visits only `p[j]`, the last child holding a text, among those that hold one. */
  lemma FocusedPrefixAt(p: seq<Node>, j: nat)
    requires j < |p| && Leaves(p[j]) != []
    requires forall k :: j < k < |p| ==> Leaves(p[k]) == []
    ensures var back := FocusedPrefix(p);
      && back[..j] == p[..j] && back[j] == FocusEnd(p[j]).node
      && forall k :: j < k < |p| ==> Leaves(back[k]) == []
  {
    var rs := Reverse(p);
    var q := |p| - 1 - j;
    forall k | 0 <= k < q ensures Leaves(rs[k]) == [] {
      assert rs[k] == p[|p| - 1 - k];
    }
    FindFocusAt(rs, q);
    var visited := FindFocus(rs).nodes;
    assert FocusedPrefix(p) == Reverse(visited);
    ReverseVisited(p, visited, q);
  }

  /** The visited children, put back in their original order. */
  lemma ReverseVisited(p: seq<Node>, visited: seq<Node>, q: nat)
    requires |visited| == |p| && q < |p|
    requires visited[q + 1..] == Reverse(p)[q + 1..]
    requires forall k :: 0 <= k < q ==> Leaves(visited[k]) == []
    ensures var back := Reverse(visited); var j := |p| - 1 - q;
      && back[..j] == p[..j] && back[j] == visited[q]
      && forall k :: j < k < |p| ==> Leaves(back[k]) == []
  {
    var back := Reverse(visited);
    var j := |p| - 1 - q;
    forall k | 0 <= k < j ensures back[k] == p[k] {
      assert back[k] == visited[|p| - 1 - k];
      assert visited[|p| - 1 - k] == visited[q + 1..][|p| - 1 - k - (q + 1)];
    }
    forall k | j < k < |p| ensures Leaves(back[k]) == [] {
      assert back[k] == visited[|p| - 1 - k];
    }
  }

  lemma StayAround(cs: seq<Node>, i: nat, j: nat, back: seq<Node>)
    requires j < i < |cs| && |back| == i && back[..j] == cs[..i][..j]
    ensures var r := back + cs[i..];
      && |r| == |cs| && r[..j] == cs[..j] && r[i..] == cs[i..] && r[j] == back[j]
      && forall k :: j < k < i ==> r[k] == back[k]
  {
    PrefixOfAppend(back, cs[i..]);
    assert (back + cs[i..])[..j] == back[..j];
  }

  lemma StayShape(cs: seq<Node>, i: nat, back: seq<Node>)
    requires 0 < i < |cs| && |back| == i
    requires forall k :: 0 <= k < i ==> Resembles(back[k], cs[..i][k])
    ensures var r := back + cs[i..];
      && |r| == |cs| && r[..i] == back && r[i..] == cs[i..]
      && (forall k :: 0 <= k < i ==> Resembles(r[k], cs[k]))
  {
    PrefixOfAppend(back, cs[i..]);
  }

  lemma PrefixOfAppend(a: seq<Node>, b: seq<Node>)
    ensures (a + b)[..|a|] == a && (a + b)[|a|..] == b
  {
  }

  /**
   * `focusEnd` on a fresh list of the children `p`, seen through the live
   * children: the fresh array's reversal is undone, and what remains is the
   * effect on each child.
   */
  lemma FocusEndOnPrefix(p: seq<Node>)
    ensures var back := FocusedPrefix(p);
      && |back| == |p|
      && (forall k :: 0 <= k < |p| ==> Resembles(back[k], p[k]))
      && multiset(LeavesOf(back)) == multiset(MarkLastLeaf(LeavesOf(p)))
  {
    var rs := Reverse(p);
    var visited := FindFocus(rs).nodes;
    assert FocusedPrefix(p) == Reverse(visited);
    VisitResembles(p, visited);
    ReverseLeaves(visited);
    FocusEndMarksLastLeaf(List(p));
  }

  lemma VisitResembles(p: seq<Node>, visited: seq<Node>)
    requires |visited| == |p|
    requires forall k :: 0 <= k < |p| ==> Resembles(visited[k], Reverse(p)[k])
    ensures |Reverse(visited)| == |p|
    ensures forall k :: 0 <= k < |p| ==> Resembles(Reverse(visited)[k], p[k])
  {
    var back := Reverse(visited);
    forall k | 0 <= k < |p| ensures Resembles(back[k], p[k]) {
      assert back[k] == visited[|p| - 1 - k];
      assert Reverse(p)[|p| - 1 - k] == p[k];
    }
  }

  /** The same closure with the corrected search: nothing is reordered. */
  function ListBackspaceIntended(cs: seq<Node>, i: nat): (r: Backspace)
    requires i < |cs|
    ensures r.BubbleUp? <==> i == 0
    ensures r.Stay? ==> |r.children| == |cs| && r.children[i..] == cs[i..]
  {
    if i == 0 then BubbleUp
    else Stay(MarkLastIn(cs[..i]).nodes + cs[i..])
  }

  /**
   * With the corrected search, Backspace inside a list gives exactly the last
   * text before the child the caret request and changes nothing else.
   */
  lemma ListBackspaceIntendedCorrect(cs: seq<Node>, i: nat)
    requires i < |cs|
    ensures ListBackspaceIntended(cs, i).BubbleUp? <==> i == 0
    ensures i > 0 ==>
      var r := ListBackspaceIntended(cs, i).children;
      && |r| == |cs| && r[i..] == cs[i..]
      && LeavesOf(r[..i]) == MarkLastLeaf(LeavesOf(cs[..i]))
      && EraseAll(r[..i]) == EraseAll(cs[..i])
  {
    if i > 0 {
      var p := cs[..i];
      MarkLastInMarksLastLeaf(p);
      var m := MarkLastIn(p).nodes;
      assert |m| == i by {
        assert |EraseAll(m)| == |EraseAll(p)|;
      }
      PrefixOfAppend(m, cs[i..]);
    }
  }

  /**
   * Backspace on the text after an object with a multi-child content
   * reverses that content in the document, where the intended behaviour only
   * moves the caret to its last text.
   */
  lemma ListBackspaceReversesObject()
    ensures var ob := Object("b", [Text("x", NoFocus), Object("c", [EmptyText]), Text("y", NoFocus)]);
      var cs := [Text("a", NoFocus), ob, Text("z", NoFocus)];
      && ListBackspace(cs, 2) == Stay([Text("a", NoFocus),
           Object("b", [Text("y", End), Object("c", [EmptyText]), Text("x", NoFocus)]), Text("z", NoFocus)])
      && ListBackspaceIntended(cs, 2) == Stay([Text("a", NoFocus),
           Object("b", [Text("x", NoFocus), Object("c", [EmptyText]), Text("y", End)]), Text("z", NoFocus)])
  {
    var ob := Object("b", [Text("x", NoFocus), Object("c", [EmptyText]), Text("y", NoFocus)]);
    var ta := Text("a", NoFocus);
    var cs := [ta, ob, Text("z", NoFocus)];
    FocusEndReversesContent();
    var p := cs[..2];
    assert p == [ta, ob];
    assert Reverse(p) == [ob, ta];
    assert FindFocus([ob, ta]) == MarkedSeq(true, [FocusEnd(ob).node] + [ta]);
    assert Reverse([FocusEnd(ob).node, ta]) == [ta, FocusEnd(ob).node];
    assert MarkLastIn(p) == MarkedSeq(true, p[..1] + [MarkLast(ob).node]);
    assert cs[2..] == [Text("z", NoFocus)];
  }

  // ---------------------------------------------------------------------
  // An object's closures for its content list
  // ---------------------------------------------------------------------

  /**
   * The object's replace closure: a list replacement becomes the content, any
   * other node is wrapped in a one-child list. The object does not call its
   * own parent: the change stops here.
   */
  function ObjectReplace(tag: string, e: Node): (r: Node)
    ensures r.Object? && r.tag == tag
    ensures e.List? ==> r.content == e.children
    ensures !e.List? ==> r.content == [e]
  {
    Object(tag, if e.List? then e.children else [e])
  }

  /**
   * The tag is kept; a list is taken as the content, and the object is well
   * formed iff that list is; a single wrapped node keeps the object well
   * formed iff it is a text.
   */
  lemma ObjectReplaceCorrect(tag: string, e: Node)
    ensures ObjectReplace(tag, e).Object? && ObjectReplace(tag, e).tag == tag
    ensures e.List? ==> Leaves(ObjectReplace(tag, e)) == Leaves(e)
    ensures e.List? ==> (WellFormed(ObjectReplace(tag, e)) <==> WellFormed(e))
    ensures !e.List? ==> Leaves(ObjectReplace(tag, e)) == Leaves(e)
    ensures !e.List? ==> (WellFormed(ObjectReplace(tag, e)) <==> e.Text?)
  {
    if !e.List? {
      assert LeavesOf([e]) == LeavesOf([e][..0]) + Leaves(e);
      assert [e][..0] == [];
    }
  }

  /** A list replacement coming up from the content leaves the object in canonical shape. */
  lemma ObjectReplaceWithList(tag: string, cs: seq<Node>, i: nat, e: Node)
    requires i < |cs|
    ensures WellFormed(ObjectReplace(tag, ListReplace(cs, i, e)))
  {
    ListReplaceCorrect(cs, i, e);
    ObjectReplaceCorrect(tag, ListReplace(cs, i, e));
  }

  /**
   * The object's backspace closure: the object is replaced, in its parent,
   * by the normalized list of a text `{tag` asking for the caret at its end
   * followed by the old content list.
   */
  function ObjectUnwrap(tag: string, content: seq<Node>): (r: Node)
    ensures r.List? && WellFormed(r)
  {
    NormalizeWellFormed(List([Text("{" + tag, End), List(content)]));
    Normalize(List([Text("{" + tag, End), List(content)]))
  }

  /**
   * Unwrapping gives a canonical list whose text is `{`, the tag and the
   * content's text, and whose non-text children are the content's, normalized.
   */
  lemma ObjectUnwrapCorrect(tag: string, content: seq<Node>)
    ensures ObjectUnwrap(tag, content).List? && WellFormed(ObjectUnwrap(tag, content))
    ensures TextOf(ObjectUnwrap(tag, content).children) == "{" + tag + TextOf(content)
    ensures NonTexts(ObjectUnwrap(tag, content).children) == MapNormalize(MapNormalize(NonTexts(content)))
  {
    var s := [Text("{" + tag, End), List(content)];
    FlattenThenList(s[0], content);
    NormalizeListWellFormed(s);
    NormalizeListKeepsText(s);
    NormalizeListKeepsNonTexts(s);
    TextOfAppend([s[0]], content);
    NonTextsAppend([s[0]], content);
  }

  /**
   * Unwrapping an object whose content is in canonical shape merges `{tag`
   * into the content's first text, with the caret at the end of `{tag`'s
   * request, and keeps the rest of the content as it is.
   */
  lemma ObjectUnwrapSteady(tag: string, content: seq<Node>)
    requires Steady(content)
    ensures ObjectUnwrap(tag, content)
      == List([Text("{" + tag + content[0].text, End)] + content[1..])
  {
    UnwrapSteady(Text("{" + tag, End), content);
  }

  lemma UnwrapSteady(t: Node, content: seq<Node>)
    requires t.Text? && t.focus == End && Steady(content)
    ensures Normalize(List([t, List(content)])) == List([Text(t.text + content[0].text, End)] + content[1..])
  {
    var s := [t, List(content)];
    var merged := [Text(t.text + content[0].text, End)] + content[1..];
    NormalizeListSteps(s);
    FlattenThenList(t, content);
    TextThenFixed(t, content);
    assert MapNormalize(Flatten(s)) == [t] + content;
    MergeSteady(t, content);
    assert NormalizeList(s) == merged;
  }

  /** The merge and the last two steps of `normalizeList` on `t` in front of steady content. */
  lemma MergeSteady(t: Node, content: seq<Node>)
    requires t.Text? && t.focus == End && Steady(content)
    ensures GapFill(MapNormalize(MergeTexts([t] + content)))
      == [Text(t.text + content[0].text, End)] + content[1..]
  {
    MergeFront(t, content);
    var m := Text(t.text + content[0].text, End);
    assert Text(t.text + content[0].text, EitherFocus(t.focus, content[0].focus)) == m;
    assert forall c :: c in content[1..] ==> c in content;
    TextThenFixed(m, content[1..]);
    MergedNormal(m, content);
    GapFillIdentity([m] + content[1..]);
  }

  /** A text in front of canonical nodes: normalizing each node changes nothing. */
  lemma TextThenFixed(t: Node, s: seq<Node>)
    requires t.Text? && forall c :: c in s ==> WellFormed(c) && NoNestedLists(c)
    ensures MapNormalize([t] + s) == [t] + s
  {
    forall c | c in [t] + s ensures WellFormed(c) && NoNestedLists(c) {
      if c != t {
        assert c in s;
      }
    }
    MapNormalizeFixed([t] + s);
  }

  /** Replacing the first text of a canonical sequence by another text keeps it canonical. */
  lemma MergedNormal(m: Node, content: seq<Node>)
    requires m.Text? && NormalList(content)
    ensures NormalList([m] + content[1..])
  {
    var merged := [m] + content[1..];
    forall k | 0 < k < |merged| ensures merged[k - 1].Text? != merged[k].Text? {
      if k > 1 {
        assert merged[k - 1] == content[k - 1] && merged[k] == content[k];
      } else {
        assert merged[k] == content[k];
      }
    }
  }

  /** Backspace at the start of `{x <y>}` leaves the single text `{xy` with the caret at its end. */
  lemma UnwrapExample()
    ensures ObjectUnwrap("x", [Text("y", NoFocus)]) == List([Text("{xy", End)])
  {
    ObjectUnwrapSteady("x", [Text("y", NoFocus)]);
    assert "{" + "x" + "y" == "{xy";
    assert [Text("y", NoFocus)][1..] == [];
  }
}
