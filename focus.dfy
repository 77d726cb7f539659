/**
 * `focusEnd`: find the last text node of a subtree, set its focus request
 * to "end" and report whether one was found.
 *
 * The source searches a list's children last-first with
 * `ele.content.reverse().find(...)`; `reverse()` reverses the visited array
 * in place, so every list the search reaches is left with its children in
 * the opposite order. `FocusEnd` models that as written; `MarkLast` is the
 * same search without the reversal.
 */
module Focusing {
  import opened Ast

  /** The outcome of a search on one node: whether a text was found, and the node afterwards. */
  datatype Marked = Marked(found: bool, node: Node)

  /** The outcome of a search over children: whether a text was found, and the children afterwards. */
  datatype MarkedSeq = MarkedSeq(found: bool, nodes: seq<Node>)

  /** `Array.prototype.reverse`, as a function of the array's contents. */
  function Reverse(s: seq<Node>): (r: seq<Node>)
    ensures |r| == |s|
    ensures forall i :: 0 <= i < |s| ==> r[i] == s[|s| - 1 - i]
  {
    seq(|s|, i requires 0 <= i < |s| => s[|s| - 1 - i])
  }

  /**
   * Reversing is a permutation, and reversing twice restores the order: the
   * search reorders a list without losing or duplicating a child.
   */
  lemma {:induction false} ReversePermutes(s: seq<Node>)
    ensures multiset(Reverse(s)) == multiset(s)
    ensures Reverse(Reverse(s)) == s
  {
    if s != [] {
      var init, x := s[..|s| - 1], s[|s| - 1];
      ReversePermutes(init);
      assert Reverse(s) == [x] + Reverse(init);
      assert s == init + [x];
    }
  }

  /** Reversing keeps the elements. */
  lemma ReverseElements(s: seq<Node>)
    ensures forall c :: c in Reverse(s) <==> c in s
  {
    forall c | c in s ensures c in Reverse(s) {
      var k :| 0 <= k < |s| && s[k] == c;
      assert Reverse(s)[|s| - 1 - k] == c;
    }
  }

  /** Same constructor, same string for a text, same tag for an object, same number of children. */
  predicate Resembles(a: Node, b: Node)
  {
    match a
    case Text(t, _) => b.Text? && b.text == t
    case List(cs) => b.List? && |b.children| == |cs|
    case Object(tag, cs) => b.Object? && b.tag == tag && |b.content| == |cs|
  }

  // ---------------------------------------------------------------------
  // focusEnd as written
  // ---------------------------------------------------------------------

  /**
   * `focusEnd`: a text gets focus "end" and succeeds; a list reverses its
   * children in place and tries them in that order, stopping at the first
   * success; an object delegates to its content list.
   */
  function FocusEnd(n: Node): (r: Marked)
    decreases Height(n), 1, 0
    ensures Resembles(r.node, n)
  {
    match n
    case Text(t, _) => Marked(true, Text(t, End))
    case List(cs) =>
      var rs := Reverse(cs);
      MaxHeightAtMost(rs, MaxHeight(cs));
      var m := FindFocus(rs);
      Marked(m.found, List(m.nodes))
    case Object(tag, cs) =>
      var rs := Reverse(cs);
      MaxHeightAtMost(rs, MaxHeight(cs));
      var m := FindFocus(rs);
      Marked(m.found, Object(tag, m.nodes))
  }

  /**
   * `find(e => focusEnd(e))` over an array: the children up to and including
   * the first success are visited (and changed by the visit), the rest are
   * left as they are.
   */
  function FindFocus(rs: seq<Node>): (r: MarkedSeq)
    decreases MaxHeight(rs) + 1, 0, |rs|
    ensures |r.nodes| == |rs|
    ensures forall k :: 0 <= k < |rs| ==> Resembles(r.nodes[k], rs[k])
  {
    if rs == [] then MarkedSeq(false, [])
    else
      var m := FocusEnd(rs[0]);
      if m.found then MarkedSeq(true, [m.node] + rs[1..])
      else
        var rest := FindFocus(rs[1..]);
        MarkedSeq(rest.found, [m.node] + rest.nodes)
  }

  /** Children of the same kinds, position by position, have the canonical shape together. */
  lemma SameKindsNormal(a: seq<Node>, b: seq<Node>)
    requires NormalList(a) && |b| == |a|
    requires forall k :: 0 <= k < |a| ==> b[k].Text? == a[k].Text?
    ensures NormalList(b)
  {
    forall k | 0 < k < |b| ensures b[k - 1].Text? != b[k].Text? {
      assert a[k - 1].Text? != a[k].Text?;
    }
  }

  /** The canonical shape reads the same backwards: text at both ends, alternating. */
  lemma ReverseNormal(cs: seq<Node>)
    requires NormalList(cs)
    ensures NormalList(Reverse(cs))
  {
    var r := Reverse(cs);
    forall k | 0 < k < |r| ensures r[k - 1].Text? != r[k].Text? {
      var j := |cs| - k;
      assert r[k - 1] == cs[j] && r[k] == cs[j - 1];
    }
  }

  /**
   * The reversal does not break the canonical shape: `focusEnd` leaves a
   * well-formed node well formed.
   */
  lemma FocusEndWellFormed(n: Node)
    requires WellFormed(n)
    ensures WellFormed(FocusEnd(n).node)
    decreases Height(n), 1
  {
    match n
    case Text(_, _) =>
    case List(cs) => FocusEndChildrenWellFormed(cs);
    case Object(_, cs) => FocusEndChildrenWellFormed(cs);
  }

  lemma FocusEndChildrenWellFormed(cs: seq<Node>)
    requires NormalList(cs) && forall c :: c in cs ==> WellFormed(c)
    ensures NormalList(FindFocus(Reverse(cs)).nodes)
    ensures forall c :: c in FindFocus(Reverse(cs)).nodes ==> WellFormed(c)
    decreases 1 + MaxHeight(cs), 0
  {
    var rs := Reverse(cs);
    ReverseNormal(cs);
    MaxHeightAtMost(rs, MaxHeight(cs));
    SameKindsNormal(rs, FindFocus(rs).nodes);
    assert forall c :: c in rs ==> WellFormed(c) by {
      forall c | c in rs ensures WellFormed(c) {
        var k :| 0 <= k < |rs| && rs[k] == c;
        assert rs[k] == cs[|cs| - 1 - k];
      }
    }
    FindFocusWellFormed(rs);
  }

  lemma FindFocusWellFormed(rs: seq<Node>)
    requires forall c :: c in rs ==> WellFormed(c)
    ensures forall c :: c in FindFocus(rs).nodes ==> WellFormed(c)
    decreases MaxHeight(rs) + 1, 0, |rs|
  {
    if rs != [] {
      FocusEndWellFormed(rs[0]);
      if !FocusEnd(rs[0]).found {
        FindFocusWellFormed(rs[1..]);
      }
    }
  }

  // ---------------------------------------------------------------------
  // The same search without the in-place reversal
  // ---------------------------------------------------------------------

  /** Mark the last text in document order, leaving the order of every list as it is. */
  function MarkLast(n: Node): (r: Marked)
    ensures Resembles(r.node, n)
    ensures !r.found ==> r.node == n
    ensures n.Text? ==> r.found && r.node.focus == End
  {
    match n
    case Text(t, _) => Marked(true, Text(t, End))
    case List(cs) => var m := MarkLastIn(cs); Marked(m.found, List(m.nodes))
    case Object(tag, cs) => var m := MarkLastIn(cs); Marked(m.found, Object(tag, m.nodes))
  }

  function MarkLastIn(cs: seq<Node>): (r: MarkedSeq)
    ensures |r.nodes| == |cs|
    ensures forall k :: 0 <= k < |cs| ==> Resembles(r.nodes[k], cs[k])
    ensures !r.found ==> r.nodes == cs
  {
    if cs == [] then MarkedSeq(false, [])
    else
      var init := cs[..|cs| - 1];
      var m := MarkLast(cs[|cs| - 1]);
      if m.found then MarkedSeq(true, init + [m.node])
      else
        var rest := MarkLastIn(init);
        MarkedSeq(rest.found, rest.nodes + [m.node])
  }

  lemma MarkLastLeafAppend(a: seq<Leaf>, b: seq<Leaf>)
    requires b != []
    ensures MarkLastLeaf(a + b) == a + MarkLastLeaf(b)
  {
    assert (a + b)[..|a + b| - 1] == a + b[..|b| - 1];
  }

  lemma EraseAllAppendOne(cs: seq<Node>, x: Node)
    ensures EraseAll(cs + [x]) == EraseAll(cs) + [Erase(x)]
  {
    assert (cs + [x])[..|cs|] == cs;
  }

  lemma LeavesOfAppendOne(cs: seq<Node>, x: Node)
    ensures LeavesOf(cs + [x]) == LeavesOf(cs) + Leaves(x)
  {
    assert (cs + [x])[..|cs|] == cs;
  }

  /**
   * The corrected search finds a text iff the node holds one, gives exactly
   * the last leaf in document order the request "end", and changes nothing
   * else: no string, no other request, no order.
   */
  lemma {:induction false} MarkLastMarksLastLeaf(n: Node)
    ensures MarkLast(n).found == (Leaves(n) != [])
    ensures Leaves(MarkLast(n).node) == MarkLastLeaf(Leaves(n))
    ensures Erase(MarkLast(n).node) == Erase(n)
  {
    match n
    case Text(_, _) =>
    case List(cs) => MarkLastInMarksLastLeaf(cs);
    case Object(_, cs) => MarkLastInMarksLastLeaf(cs);
  }

  lemma {:induction false} MarkLastInMarksLastLeaf(cs: seq<Node>)
    ensures MarkLastIn(cs).found == (LeavesOf(cs) != [])
    ensures LeavesOf(MarkLastIn(cs).nodes) == MarkLastLeaf(LeavesOf(cs))
    ensures EraseAll(MarkLastIn(cs).nodes) == EraseAll(cs)
  {
    if cs != [] {
      var init, x := cs[..|cs| - 1], cs[|cs| - 1];
      MarkLastMarksLastLeaf(x);
      var m := MarkLast(x);
      assert LeavesOf(cs) == LeavesOf(init) + Leaves(x);
      assert EraseAll(cs) == EraseAll(init) + [Erase(x)];
      if m.found {
        assert MarkLastIn(cs).nodes == init + [m.node];
        LeavesOfAppendOne(init, m.node);
        MarkLastLeafAppend(LeavesOf(init), Leaves(x));
        EraseAllAppendOne(init, m.node);
      } else {
        MarkLastInMarksLastLeaf(init);
        var rest := MarkLastIn(init);
        assert MarkLastIn(cs) == MarkedSeq(rest.found, rest.nodes + [m.node]);
        assert Leaves(x) == [] && Leaves(m.node) == [];
        LeavesOfAppendOne(rest.nodes, m.node);
        EraseAllAppendOne(rest.nodes, m.node);
      }
    }
  }

  // ---------------------------------------------------------------------
  // What focusEnd as written does, against document order
  // ---------------------------------------------------------------------

  lemma {:induction false} ReverseLeaves(s: seq<Node>)
    ensures multiset(LeavesOf(Reverse(s))) == multiset(LeavesOf(s))
  {
    if s != [] {
      var init, x := s[..|s| - 1], s[|s| - 1];
      assert Reverse(s) == [x] + Reverse(init);
      ReverseLeaves(init);
      LeavesOfAppend([x], Reverse(init));
      assert LeavesOf([x]) == Leaves(x) by {
        assert [x][..0] == [];
      }
    }
  }

  /** The corrected search changes no node's kind and keeps a well-formed node well formed. */
  lemma {:induction false} MarkLastWellFormed(n: Node)
    requires WellFormed(n)
    ensures WellFormed(MarkLast(n).node)
    ensures MarkLast(n).node.Text? == n.Text? && MarkLast(n).node.List? == n.List?
  {
    match n
    case Text(_, _) =>
    case List(cs) =>
      MarkLastInWellFormed(cs);
      SameKindsNormal(cs, MarkLastIn(cs).nodes);
    case Object(_, cs) =>
      MarkLastInWellFormed(cs);
      SameKindsNormal(cs, MarkLastIn(cs).nodes);
  }

  lemma {:induction false} MarkLastInWellFormed(cs: seq<Node>)
    requires forall c :: c in cs ==> WellFormed(c)
    ensures |MarkLastIn(cs).nodes| == |cs|
    ensures forall k :: 0 <= k < |cs| ==> MarkLastIn(cs).nodes[k].Text? == cs[k].Text?
    ensures forall c :: c in MarkLastIn(cs).nodes ==> WellFormed(c)
  {
    if cs != [] {
      var init, x := cs[..|cs| - 1], cs[|cs| - 1];
      assert x in cs;
      MarkLastWellFormed(x);
      var m := MarkLast(x);
      var front := if m.found then init else MarkLastIn(init).nodes;
      assert forall c :: c in init ==> c in cs;
      MarkLastInWellFormed(init);
      assert MarkLastIn(cs).nodes == front + [m.node];
      assert |front| == |init| && forall k :: 0 <= k < |init| ==> front[k].Text? == init[k].Text?;
      assert forall c :: c in front ==> WellFormed(c);
    }
  }

  /** The search as written and the corrected one find the same text and leave the same leaves. */
  lemma {:induction false} FocusEndAgreesWithMarkLast(n: Node)
    ensures FocusEnd(n).found == MarkLast(n).found
    ensures multiset(Leaves(FocusEnd(n).node)) == multiset(Leaves(MarkLast(n).node))
  {
    match n
    case Text(_, _) =>
    case List(cs) => FindFocusAgreesWithMarkLastIn(cs);
    case Object(_, cs) => FindFocusAgreesWithMarkLastIn(cs);
  }

  lemma {:induction false} FindFocusAgreesWithMarkLastIn(cs: seq<Node>)
    ensures FindFocus(Reverse(cs)).found == MarkLastIn(cs).found
    ensures multiset(LeavesOf(FindFocus(Reverse(cs)).nodes)) == multiset(LeavesOf(MarkLastIn(cs).nodes))
  {
    if cs != [] {
      var init, x := cs[..|cs| - 1], cs[|cs| - 1];
      var rs := Reverse(cs);
      assert rs[0] == x && rs[1..] == Reverse(init);
      FocusEndAgreesWithMarkLast(x);
      var m, m' := FocusEnd(x), MarkLast(x);
      if m.found {
        assert FindFocus(rs).nodes == [m.node] + Reverse(init);
        assert MarkLastIn(cs).nodes == init + [m'.node];
        FoundLeaves(init, m.node, m'.node);
      } else {
        FindFocusAgreesWithMarkLastIn(init);
        var rest := FindFocus(Reverse(init));
        assert FindFocus(rs).nodes == [m.node] + rest.nodes;
        assert MarkLastIn(cs).nodes == MarkLastIn(init).nodes + [m'.node];
        NotFoundLeaves(m.node, rest.nodes, m'.node, MarkLastIn(init).nodes);
      }
    }
  }

  lemma LeavesOfOne(n: Node)
    ensures LeavesOf([n]) == Leaves(n)
  {
    assert [n][..0] == [];
  }

  lemma FoundLeaves(init: seq<Node>, a: Node, b: Node)
    requires multiset(Leaves(a)) == multiset(Leaves(b))
    ensures multiset(LeavesOf([a] + Reverse(init))) == multiset(LeavesOf(init + [b]))
  {
    LeavesOfAppend([a], Reverse(init));
    LeavesOfOne(a);
    ReverseLeaves(init);
    LeavesOfAppendOne(init, b);
  }

  lemma NotFoundLeaves(a: Node, rest: seq<Node>, b: Node, init: seq<Node>)
    requires multiset(Leaves(a)) == multiset(Leaves(b))
    requires multiset(LeavesOf(rest)) == multiset(LeavesOf(init))
    ensures multiset(LeavesOf([a] + rest)) == multiset(LeavesOf(init + [b]))
  {
    LeavesOfAppend([a], rest);
    LeavesOfOne(a);
    LeavesOfAppendOne(init, b);
  }

  /**
   * `focusEnd` succeeds iff the node holds a text; afterwards the leaves are
   * those of the node with the last one (in the ORIGINAL document order)
   * marked "end", as a multiset: the in-place reversal may reorder them.
   * The marked one is the first leaf of the node afterwards: every list on
   * the way to it was reversed, which brings it to the front.
   */
  lemma FocusEndMarksLastLeaf(n: Node)
    ensures FocusEnd(n).found == (Leaves(n) != [])
    ensures multiset(Leaves(FocusEnd(n).node)) == multiset(MarkLastLeaf(Leaves(n)))
    ensures FocusEnd(n).found ==>
      && Leaves(n) != [] && Leaves(FocusEnd(n).node) != []
      && Leaves(FocusEnd(n).node)[0] == Leaf(Leaves(n)[|Leaves(n)| - 1].text, End)
  {
    FocusEndAgreesWithMarkLast(n);
    MarkLastMarksLastLeaf(n);
    FocusEndMarkComesFirst(n);
  }

  /**
   * `find` stops at the first child holding a text: the children before it
   * hold none and stay without one, that child is visited, and the children
   * after it are not touched.
   */
  lemma {:induction false} FindFocusAt(rs: seq<Node>, q: nat)
    requires q < |rs| && Leaves(rs[q]) != []
    requires forall k :: 0 <= k < q ==> Leaves(rs[k]) == []
    ensures var m := FindFocus(rs);
      && m.found && m.nodes[q] == FocusEnd(rs[q]).node && m.nodes[q + 1..] == rs[q + 1..]
      && forall k :: 0 <= k < q ==> Leaves(m.nodes[k]) == []
  {
    var x := rs[0];
    var m := FocusEnd(x);
    FocusEndFound(x);
    if q == 0 {
      assert FindFocus(rs).nodes == [m.node] + rs[1..];
    } else {
      assert Leaves(x) == [];
      forall k | 0 <= k < q - 1 ensures Leaves(rs[1..][k]) == [] {
        assert rs[1..][k] == rs[k + 1];
      }
      FindFocusAt(rs[1..], q - 1);
      var rest := FindFocus(rs[1..]);
      assert FindFocus(rs).nodes == [m.node] + rest.nodes;
    }
  }

  /** The in-place reversal creates no nested list. */
  lemma FocusEndNoNestedLists(n: Node)
    requires NoNestedLists(n)
    ensures NoNestedLists(FocusEnd(n).node)
    decreases Height(n), 2
  {
    match n
    case Text(_, _) =>
    case List(cs) => FocusEndChildrenNoNestedLists(cs);
    case Object(_, cs) => FocusEndChildrenNoNestedLists(cs);
  }

  lemma FocusEndChildrenNoNestedLists(cs: seq<Node>)
    requires forall c :: c in cs ==> !c.List? && NoNestedLists(c)
    ensures forall c :: c in FindFocus(Reverse(cs)).nodes ==> !c.List? && NoNestedLists(c)
    decreases 1 + MaxHeight(cs), 1
  {
    var rs := Reverse(cs);
    MaxHeightAtMost(rs, MaxHeight(cs));
    ReverseElements(cs);
    FindFocusNoNestedLists(rs);
  }

  lemma {:induction false} FindFocusNoNestedLists(rs: seq<Node>)
    requires forall c :: c in rs ==> !c.List? && NoNestedLists(c)
    ensures forall c :: c in FindFocus(rs).nodes ==> !c.List? && NoNestedLists(c)
    decreases MaxHeight(rs) + 1, 0, |rs|
  {
    if rs != [] {
      assert rs[0] in rs;
      FocusEndNoNestedLists(rs[0]);
      assert forall c :: c in rs[1..] ==> c in rs;
      if !FocusEnd(rs[0]).found {
        FindFocusNoNestedLists(rs[1..]);
      }
    }
  }

  /** The corrected search creates no nested list either. */
  lemma {:induction false} MarkLastNoNestedLists(n: Node)
    requires NoNestedLists(n)
    ensures NoNestedLists(MarkLast(n).node)
  {
    match n
    case Text(_, _) =>
    case List(cs) => MarkLastInNoNestedLists(cs);
    case Object(_, cs) => MarkLastInNoNestedLists(cs);
  }

  lemma {:induction false} MarkLastInNoNestedLists(cs: seq<Node>)
    requires forall c :: c in cs ==> !c.List? && NoNestedLists(c)
    ensures forall c :: c in MarkLastIn(cs).nodes ==> !c.List? && NoNestedLists(c)
  {
    if cs != [] {
      var init, x := cs[..|cs| - 1], cs[|cs| - 1];
      assert x in cs;
      MarkLastNoNestedLists(x);
      assert forall c :: c in init ==> c in cs;
      MarkLastInNoNestedLists(init);
    }
  }

  /** The search succeeds iff the node holds a text; a failed visit leaves it without one. */
  lemma FocusEndFound(x: Node)
    ensures FocusEnd(x).found == (Leaves(x) != [])
    ensures !FocusEnd(x).found ==> Leaves(FocusEnd(x).node) == []
  {
    FocusEndAgreesWithMarkLast(x);
    MarkLastMarksLastLeaf(x);
    if !FocusEnd(x).found {
      assert multiset(Leaves(FocusEnd(x).node)) == multiset{};
    }
  }

  lemma LeavesFront(a: Node, rest: seq<Node>)
    ensures LeavesOf([a] + rest) == Leaves(a) + LeavesOf(rest)
  {
    LeavesOfAppend([a], rest);
    LeavesOfOne(a);
  }

  lemma LastOfAppend(a: seq<Leaf>, b: seq<Leaf>)
    requires b != []
    ensures (a + b)[|a + b| - 1] == b[|b| - 1]
  {
  }

  /** Reversing puts the first element last. */
  lemma ReverseCons(rs: seq<Node>)
    requires rs != []
    ensures Reverse(rs) == Reverse(rs[1..]) + [rs[0]]
  {
  }

  /** On success, the first leaf afterwards is the node's last leaf, marked "end". */
  lemma {:induction false} FocusEndMarkComesFirst(n: Node)
    decreases Height(n), 2
    ensures FocusEnd(n).found ==>
      && Leaves(n) != [] && Leaves(FocusEnd(n).node) != []
      && Leaves(FocusEnd(n).node)[0] == Leaf(Leaves(n)[|Leaves(n)| - 1].text, End)
  {
    match n
    case Text(_, _) =>
    case List(cs) => ChildrenMarkComesFirst(cs);
    case Object(_, cs) => ChildrenMarkComesFirst(cs);
  }

  lemma {:induction false} ChildrenMarkComesFirst(cs: seq<Node>)
    decreases 1 + MaxHeight(cs), 1
    ensures var m := FindFocus(Reverse(cs));
      m.found ==>
        && LeavesOf(cs) != [] && LeavesOf(m.nodes) != []
        && LeavesOf(m.nodes)[0] == Leaf(LeavesOf(cs)[|LeavesOf(cs)| - 1].text, End)
  {
    var rs := Reverse(cs);
    MaxHeightAtMost(rs, MaxHeight(cs));
    ReversePermutes(cs);
    FindFocusMarkComesFirst(rs);
  }

  /**
   * `find` over the reversed children: on success the first leaf afterwards
   * is the last leaf of the children in their original order, marked "end".
   */
  lemma {:induction false} FindFocusMarkComesFirst(rs: seq<Node>)
    decreases MaxHeight(rs) + 1, 0, |rs|
    ensures var m := FindFocus(rs); var ls := LeavesOf(Reverse(rs));
      m.found ==> ls != [] && LeavesOf(m.nodes) != [] && LeavesOf(m.nodes)[0] == Leaf(ls[|ls| - 1].text, End)
  {
    if rs != [] {
      var x := rs[0];
      var m := FocusEnd(x);
      FocusEndFound(x);
      ReverseCons(rs);
      LeavesOfAppendOne(Reverse(rs[1..]), x);
      if m.found {
        FocusEndMarkComesFirst(x);
        assert FindFocus(rs).nodes == [m.node] + rs[1..];
        LeavesFront(m.node, rs[1..]);
        LastOfAppend(LeavesOf(Reverse(rs[1..])), Leaves(x));
      } else {
        var rest := FindFocus(rs[1..]);
        FindFocusMarkComesFirst(rs[1..]);
        assert FindFocus(rs).nodes == [m.node] + rest.nodes;
        LeavesFront(m.node, rest.nodes);
        assert LeavesOf(Reverse(rs[1..])) + Leaves(x) == LeavesOf(Reverse(rs[1..]));
      }
    }
  }

  /**
   * The reversal is visible: on an object whose content has more than one
   * child, `focusEnd` leaves the content in reverse order, where the
   * corrected search only marks the last text.
   */
  lemma FocusEndReversesContent()
    ensures var n := Object("b", [Text("x", NoFocus), Object("c", [EmptyText]), Text("y", NoFocus)]);
      && FocusEnd(n) == Marked(true, Object("b", [Text("y", End), Object("c", [EmptyText]), Text("x", NoFocus)]))
      && MarkLast(n) == Marked(true, Object("b", [Text("x", NoFocus), Object("c", [EmptyText]), Text("y", End)]))
  {
    var cs := [Text("x", NoFocus), Object("c", [EmptyText]), Text("y", NoFocus)];
    var rs := Reverse(cs);
    assert rs == [Text("y", NoFocus), Object("c", [EmptyText]), Text("x", NoFocus)];
    assert FindFocus(rs) == MarkedSeq(true, [Text("y", End)] + rs[1..]);
    assert MarkLast(cs[2]) == Marked(true, Text("y", End));
    assert MarkLastIn(cs) == MarkedSeq(true, cs[..2] + [Text("y", End)]);
    assert cs[..2] + [Text("y", End)] == [Text("x", NoFocus), Object("c", [EmptyText]), Text("y", End)];
  }

  /** A trailing text is found before an earlier object is entered, and the list is left reversed. */
  lemma FocusEndPrefersTrailingText()
    ensures var n := List([Object("a", [Text("1", NoFocus)]), Text("2", NoFocus)]);
      FocusEnd(n) == Marked(true, List([Text("2", End), Object("a", [Text("1", NoFocus)])]))
  {
    var cs := [Object("a", [Text("1", NoFocus)]), Text("2", NoFocus)];
    assert Reverse(cs) == [Text("2", NoFocus), Object("a", [Text("1", NoFocus)])];
  }
}
