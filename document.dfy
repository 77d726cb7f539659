/**
 * The edit closures chained from a text input up to the document root. Each
 * view component receives `replace` and `backspace` closures from its
 * parent; an event at a text input runs its own closure, which may call the
 * parent's, and so on upwards, until some level changes its node in place
 * and calls no further. The root's `replace` sets the document and its
 * `backspace` does nothing.
 */
module Document {
  import opened Ast
  import opened Normalizer
  import opened Focusing
  import opened Edits
  import opened TagSplit

  /** An event at a text input: a new value, or Backspace with the caret at the start. */
  datatype Event = Change(newText: string) | BackspaceAtStart

  /**
   * Which search Backspace inside a list uses to move the caret: `focusEnd`
   * as the source has it, or the corrected search that reorders nothing.
   */
  datatype Search = AsWritten | Corrected

  /**
   * What a node does to its parent after an event below it: asks to be
   * replaced, has changed in place and asks nothing, or passes a Backspace up.
   */
  datatype Effect = Replaced(newNode: Node) | Settled(node: Node) | Backspaced

  /** What a list does after an event at one of its children, by the same three cases. */
  datatype ListEffect = ListReplaced(newList: Node) | ListSettled(children: seq<Node>) | ListBackspaced

  /** The child indices leading from `n` to a text node inside it (the empty path is `n` itself). */
  predicate PathToText(n: Node, path: seq<nat>)
    decreases |path|
  {
    if path == [] then n.Text?
    else match n
      case Text(_, _) => false
      case List(cs) => path[0] < |cs| && PathToText(cs[path[0]], path[1..])
      case Object(_, cs) => path[0] < |cs| && PathToText(cs[path[0]], path[1..])
  }

  /** The text input's own closures: `onChange` and `onKeyDown` for Backspace. */
  function AtText(ele: Node, ev: Event): Effect
    requires ele.Text?
  {
    match ev
    case Change(t) =>
      (match OnTextChange(ele, t)
       case Replace(x) => Replaced(x)
       case Retext(y) => Settled(y))
    case BackspaceAtStart => Backspaced
  }

  /** The list's backspace closure for its child at `i`, with the chosen search. */
  function BackspaceIn(cs: seq<Node>, i: nat, search: Search): Backspace
    requires i < |cs|
  {
    match search
    case AsWritten => ListBackspace(cs, i)
    case Corrected => ListBackspaceIntended(cs, i)
  }

  /** A list's closures for its child at `i`, given what the child did. */
  function InList(cs: seq<Node>, i: nat, child: Effect, search: Search): ListEffect
    requires i < |cs|
  {
    match child
    case Replaced(x) => ListReplaced(ListReplace(cs, i, x))
    case Settled(y) => ListSettled(cs[i := y])
    case Backspaced =>
      (match BackspaceIn(cs, i, search)
       case BubbleUp => ListBackspaced
       case Stay(cs') => ListSettled(cs'))
  }

  /**
   * The effect of an event at the text at the end of `path` on `n`: a list
   * passes its own effect on; an object handles its content list's effect
   * with its replace and backspace closures.
   */
  function Propagate(n: Node, path: seq<nat>, ev: Event, search: Search): (r: Effect)
    requires PathToText(n, path)
    decreases |path|
    ensures r.Replaced? ==> r.newNode.List?
    ensures r.Settled? ==> SameKind(r.node, n)
    ensures r.Backspaced? ==> ev == BackspaceAtStart && !n.Object?
  {
    if path == [] then AtText(n, ev)
    else if n.List? then
      match InList(n.children, path[0], Propagate(n.children[path[0]], path[1..], ev, search), search)
      case ListReplaced(x) => Replaced(x)
      case ListSettled(cs') => Settled(List(cs'))
      case ListBackspaced => Backspaced
    else
      match InList(n.content, path[0], Propagate(n.content[path[0]], path[1..], ev, search), search)
      case ListReplaced(x) => Settled(ObjectReplace(n.tag, x))
      case ListSettled(cs') => Settled(Object(n.tag, cs'))
      case ListBackspaced => Replaced(ObjectUnwrap(n.tag, n.content))
  }

  /** The document after the event: the root's `replace` sets it, its `backspace` does nothing. */
  function ApplyEvent(root: Node, path: seq<nat>, ev: Event, search: Search): (r: Node)
    requires PathToText(root, path)
    ensures r.List? || SameKind(r, root)
    ensures ev.Change? && root.Object? ==> r.Object?
  {
    match Propagate(root, path, ev, search)
    case Replaced(x) => x
    case Settled(y) => y
    case Backspaced => root
  }

  /** The same kind of node: both texts, both lists, or both objects. */
  predicate SameKind(a: Node, b: Node)
  {
    a.Text? == b.Text? && a.List? == b.List?
  }

  /**
   * In a well-formed node, whatever an event does keeps the canonical shape:
   * a replacement handed up is a canonical list, and a node changed in place
   * is well formed and of the same kind as before.
   */
  lemma {:induction false} PropagateKeepsCanonical(n: Node, path: seq<nat>, ev: Event, search: Search)
    requires WellFormed(n) && PathToText(n, path)
    ensures Propagate(n, path, ev, search).Replaced? ==>
      Propagate(n, path, ev, search).newNode.List? && WellFormed(Propagate(n, path, ev, search).newNode)
    ensures Propagate(n, path, ev, search).Settled? ==>
      WellFormed(Propagate(n, path, ev, search).node) && SameKind(Propagate(n, path, ev, search).node, n)
    decreases |path|
  {
    if path == [] {
      if ev.Change? {
        OnTextChangeCorrect(n, ev.newText);
      }
    } else {
      var cs := if n.List? then n.children else n.content;
      var i := path[0];
      assert cs[i] in cs;
      PropagateKeepsCanonical(cs[i], path[1..], ev, search);
      InListKeepsCanonical(cs, i, Propagate(cs[i], path[1..], ev, search), search);
      if n.Object? {
        var le := InList(cs, i, Propagate(cs[i], path[1..], ev, search), search);
        if le.ListReplaced? {
          ObjectReplaceCorrect(n.tag, le.newList);
        } else if le.ListBackspaced? {
          ObjectUnwrapCorrect(n.tag, cs);
        }
      }
    }
  }

  /** A list handling a child's effect keeps the canonical shape, given that the child did. */
  lemma InListKeepsCanonical(cs: seq<Node>, i: nat, child: Effect, search: Search)
    requires i < |cs| && NormalList(cs) && forall c :: c in cs ==> WellFormed(c)
    requires child.Replaced? ==> WellFormed(child.newNode)
    requires child.Settled? ==> WellFormed(child.node) && SameKind(child.node, cs[i])
    ensures InList(cs, i, child, search).ListReplaced? ==>
      InList(cs, i, child, search).newList.List? && WellFormed(InList(cs, i, child, search).newList)
    ensures InList(cs, i, child, search).ListSettled? ==>
      NormalList(InList(cs, i, child, search).children)
      && forall c :: c in InList(cs, i, child, search).children ==> WellFormed(c)
  {
    match child
    case Replaced(x) =>
      ListReplaceCorrect(cs, i, x);
    case Settled(y) =>
      SameKindsNormal(cs, cs[i := y]);
    case Backspaced =>
      if i > 0 {
        if search == AsWritten {
          BackspaceKeepsCanonical(cs, i);
        } else {
          CorrectedBackspaceKeepsCanonical(cs, i);
        }
      }
  }

  /** Backspace inside a list keeps the list canonical, although `focusEnd` reorders inner lists. */
  lemma BackspaceKeepsCanonical(cs: seq<Node>, i: nat)
    requires 0 < i < |cs| && NormalList(cs) && forall c :: c in cs ==> WellFormed(c)
    ensures NormalList(ListBackspace(cs, i).children)
    ensures forall c :: c in ListBackspace(cs, i).children ==> WellFormed(c)
  {
    var back := FocusedPrefix(cs[..i]);
    var r := ListBackspace(cs, i).children;
    assert r == back + cs[i..];
    PrefixAfterFocusEnd(cs[..i]);
    SameKindsNormal(cs, r) by {
      forall k | 0 <= k < |cs| ensures r[k].Text? == cs[k].Text? {
        if k < i {
          assert r[k] == back[k];
        } else {
          assert r[k] == cs[k];
        }
      }
    }
    forall c | c in r ensures WellFormed(c) {
      if c !in back {
        assert c in cs[i..];
      }
    }
  }

  /** With the corrected search, Backspace inside a list keeps the list canonical too. */
  lemma CorrectedBackspaceKeepsCanonical(cs: seq<Node>, i: nat)
    requires 0 < i < |cs| && NormalList(cs) && forall c :: c in cs ==> WellFormed(c)
    ensures NormalList(ListBackspaceIntended(cs, i).children)
    ensures forall c :: c in ListBackspaceIntended(cs, i).children ==> WellFormed(c)
  {
    var p := cs[..i];
    assert forall c :: c in p ==> c in cs;
    MarkLastInWellFormed(p);
    var back := MarkLastIn(p).nodes;
    var r := ListBackspaceIntended(cs, i).children;
    assert r == back + cs[i..];
    SameKindsNormal(cs, r) by {
      forall k | 0 <= k < |cs| ensures r[k].Text? == cs[k].Text? {
        if k < i {
          assert r[k] == back[k];
        } else {
          assert r[k] == cs[k];
        }
      }
    }
    forall c | c in r ensures WellFormed(c) {
      if c !in back {
        assert c in cs[i..];
      }
    }
  }

  /**
   * The children before the caret after `focusEnd`, in their places in the
   * list: the same kinds position by position, each well formed.
   */
  lemma PrefixAfterFocusEnd(p: seq<Node>)
    requires forall c :: c in p ==> WellFormed(c)
    ensures var back := FocusedPrefix(p);
      && |back| == |p|
      && (forall k :: 0 <= k < |p| ==> back[k].Text? == p[k].Text?)
      && (forall c :: c in back ==> WellFormed(c))
  {
    FocusEndOnPrefix(p);
    FocusEndChildrenShape(p);
    ReverseElements(FocusEnd(List(p)).node.children);
  }

  /** Every child `focusEnd` leaves behind in a list of well-formed children is well formed. */
  lemma FocusEndChildrenShape(p: seq<Node>)
    requires forall c :: c in p ==> WellFormed(c)
    ensures forall c :: c in FocusEnd(List(p)).node.children ==> WellFormed(c)
  {
    var rs := Reverse(p);
    assert FocusEnd(List(p)).node.children == FindFocus(rs).nodes;
    forall c | c in rs ensures WellFormed(c) {
      var k :| 0 <= k < |rs| && rs[k] == c;
      assert rs[k] == p[|p| - 1 - k];
    }
    FindFocusWellFormed(rs);
  }

  /**
   * The editor's invariant: in a well-formed document whose root is a list,
   * every change of a text input and every Backspace leaves the document
   * well formed, at every depth.
   */
  lemma EventKeepsWellFormed(root: Node, path: seq<nat>, ev: Event, search: Search)
    requires root.List? && WellFormed(root) && PathToText(root, path)
    ensures WellFormed(ApplyEvent(root, path, ev, search))
  {
    PropagateKeepsCanonical(root, path, ev, search);
  }

  /**
   * No event builds a nested list: in a well-formed node without nested
   * lists, a replacement handed up and a node changed in place hold none.
   */
  lemma {:induction false} PropagateKeepsFlat(n: Node, path: seq<nat>, ev: Event, search: Search)
    requires WellFormed(n) && NoNestedLists(n) && PathToText(n, path)
    ensures Propagate(n, path, ev, search).Replaced? ==> NoNestedLists(Propagate(n, path, ev, search).newNode)
    ensures Propagate(n, path, ev, search).Settled? ==> NoNestedLists(Propagate(n, path, ev, search).node)
    decreases |path|
  {
    if path == [] {
      if ev.Change? && MatchTagOpen(ev.newText).Some? {
        SplitNodesFlat(MatchTagOpen(ev.newText).value);
      }
    } else {
      var cs := if n.List? then n.children else n.content;
      var i := path[0];
      assert cs[i] in cs;
      assert forall c :: c in cs ==> Fixed(c);
      var child := Propagate(cs[i], path[1..], ev, search);
      PropagateKeepsCanonical(cs[i], path[1..], ev, search);
      PropagateKeepsFlat(cs[i], path[1..], ev, search);
      InListKeepsFlat(cs, i, child, search);
      if n.Object? {
        var le := InList(cs, i, child, search);
        if le.ListBackspaced? {
          UnwrapFlat(n.tag, cs);
        }
      }
    }
  }

  lemma SplitNodesFlat(m: Split)
    ensures NoNestedLists(List(SplitNodes(m)))
  {
    var r := SplitNodes(m);
    forall c | c in r ensures !c.List? && NoNestedLists(c) {
      assert c == r[0] || c == r[1] || c == r[2];
    }
  }

  /** Unwrapping an object whose content is in normal form hands up a list in normal form. */
  lemma UnwrapFlat(tag: string, content: seq<Node>)
    requires forall c :: c in content ==> Fixed(c)
    ensures NoNestedLists(ObjectUnwrap(tag, content))
  {
    var t := Text("{" + tag, End);
    var s := [t, List(content)];
    FlattenThenList(t, content);
    NormalizeListOfFixed(s);
    assert ObjectUnwrap(tag, content) == List(NormalizeList(s));
  }

  /** A list handling a child's effect creates no nested list, given that the child did not. */
  lemma InListKeepsFlat(cs: seq<Node>, i: nat, child: Effect, search: Search)
    requires i < |cs| && NormalList(cs) && forall c :: c in cs ==> Fixed(c)
    requires child.Replaced? ==> WellFormed(child.newNode) && NoNestedLists(child.newNode)
    requires child.Settled? ==> WellFormed(child.node) && SameKind(child.node, cs[i]) && NoNestedLists(child.node)
    ensures InList(cs, i, child, search).ListReplaced? ==> NoNestedLists(InList(cs, i, child, search).newList)
    ensures InList(cs, i, child, search).ListSettled? ==>
      forall c :: c in InList(cs, i, child, search).children ==> Fixed(c)
  {
    match child
    case Replaced(x) =>
      ReplaceFlat(cs, i, x);
    case Settled(y) =>
      assert cs[i] in cs;
      forall c | c in cs[i := y] ensures Fixed(c) {
        var k :| 0 <= k < |cs| && cs[i := y][k] == c;
        if k != i {
          assert cs[k] in cs;
        }
      }
    case Backspaced =>
      if i > 0 {
        var p := cs[..i];
        assert forall c :: c in p ==> c in cs;
        if search == AsWritten {
          BackspaceFlat(cs, i);
        } else {
          MarkLastInNoNestedLists(p);
          MarkLastInWellFormed(p);
          var r := ListBackspaceIntended(cs, i).children;
          assert r == MarkLastIn(p).nodes + cs[i..];
          forall c | c in r ensures Fixed(c) {
            if c !in MarkLastIn(p).nodes {
              assert c in cs[i..];
            }
          }
        }
      }
  }

  /** Splicing a list in normal form into a list in normal form and normalizing keeps it so. */
  lemma ReplaceFlat(cs: seq<Node>, i: nat, x: Node)
    requires i < |cs| && forall c :: c in cs ==> Fixed(c)
    requires WellFormed(x) && NoNestedLists(x)
    ensures NoNestedLists(ListReplace(cs, i, x))
  {
    FlattenSplice(cs, i, x);
    var a, b := cs[..i], cs[i + 1..];
    FixedSlices(cs, i);
    FlattenOfFixed(a);
    FlattenOfFixed(b);
    assert forall c :: c in Spread(x) ==> Fixed(c);
    AllFixed(a, Spread(x), b);
    NormalizeListOfFixed(cs[i := x]);
  }

  lemma FixedSlices(cs: seq<Node>, i: nat)
    requires i < |cs| && forall c :: c in cs ==> Fixed(c)
    ensures forall c :: c in cs[..i] ==> Fixed(c)
    ensures forall c :: c in cs[i + 1..] ==> Fixed(c)
  {
    assert forall c :: c in cs[..i] ==> c in cs;
    assert forall c :: c in cs[i + 1..] ==> c in cs;
  }

  lemma FlattenOfFixed(a: seq<Node>)
    requires forall c :: c in a ==> Fixed(c)
    ensures Flatten(a) == a
  {
    forall k | 0 <= k < |a| ensures !a[k].List? {
      assert a[k] in a;
    }
    FlattenIdentity(a);
  }

  lemma AllFixed(a: seq<Node>, b: seq<Node>, c: seq<Node>)
    requires forall n :: n in a ==> Fixed(n)
    requires forall n :: n in b ==> Fixed(n)
    requires forall n :: n in c ==> Fixed(n)
    ensures forall n :: n in a + b + c ==> Fixed(n)
  {
  }

  /** Backspace with the search as written creates no nested list. */
  lemma BackspaceFlat(cs: seq<Node>, i: nat)
    requires 0 < i < |cs| && forall c :: c in cs ==> Fixed(c)
    ensures forall c :: c in ListBackspace(cs, i).children ==> Fixed(c)
  {
    var p := cs[..i];
    assert forall c :: c in p ==> c in cs;
    var rs := Reverse(p);
    ReverseElements(p);
    FindFocusNoNestedLists(rs);
    PrefixAfterFocusEnd(p);
    var visited := FindFocus(rs).nodes;
    var back := FocusedPrefix(p);
    assert back == Reverse(visited);
    ReverseElements(visited);
    var r := ListBackspace(cs, i).children;
    assert r == back + cs[i..];
    forall c | c in r ensures Fixed(c) {
      if c !in back {
        assert c in cs[i..];
      }
    }
  }

  /**
   * The editor stays in normal form: from a well-formed root list without
   * nested lists, every change of a text input and every Backspace leave a
   * document of the same kind, which `normalize` therefore leaves as it is.
   */
  lemma EventKeepsNormalForm(root: Node, path: seq<nat>, ev: Event, search: Search)
    requires root.List? && WellFormed(root) && NoNestedLists(root) && PathToText(root, path)
    ensures var d := ApplyEvent(root, path, ev, search);
      WellFormed(d) && NoNestedLists(d) && Normalize(d) == d
  {
    EventKeepsWellFormed(root, path, ev, search);
    PropagateKeepsFlat(root, path, ev, search);
    NormalFormFixed(ApplyEvent(root, path, ev, search));
  }

  /**
   * Typing a tag into a text child of a steady root list: the text is
   * replaced by the text before the `{`, the new object and the text after
   * the space, flattened into the root, and nothing else changes.
   */
  lemma TagTypedInRoot(cs: seq<Node>, i: nat, t: string, search: Search)
    requires Steady(cs) && i < |cs| && cs[i].Text? && MatchTagOpen(t).Some?
    ensures ApplyEvent(List(cs), [i], Change(t), search)
      == List(cs[..i] + SplitNodes(MatchTagOpen(t).value) + cs[i + 1..])
  {
    var m := MatchTagOpen(t).value;
    OnTextChangeCorrect(cs[i], t);
    assert Propagate(cs[i], [], Change(t), search) == Replaced(List(SplitNodes(m)));
    assert [i][1..] == [];
    ListReplaceWithSplit(cs, i, m);
  }

  /**
   * Backspace at the start of an object inside the root list unwraps the
   * object into the root: the root stays canonical, and its text becomes
   * the text before the object, then `{` and the tag, then the object's
   * text, then the text after the object.
   */
  lemma UnwrapInRoot(cs: seq<Node>, i: nat, search: Search)
    requires i < |cs| && cs[i].Object? && |cs[i].content| > 0 && cs[i].content[0].Text?
    ensures ApplyEvent(List(cs), [i, 0], BackspaceAtStart, search).List?
    ensures NormalList(ApplyEvent(List(cs), [i, 0], BackspaceAtStart, search).children)
    ensures TextOf(ApplyEvent(List(cs), [i, 0], BackspaceAtStart, search).children)
      == TextOf(Flatten(cs[..i])) + "{" + cs[i].tag + TextOf(cs[i].content) + TextOf(Flatten(cs[i + 1..]))
  {
    UnwrapBubbles(cs[i], search);
    assert [i, 0][1..] == [0];
    assert ApplyEvent(List(cs), [i, 0], BackspaceAtStart, search) == ListReplace(cs, i, ObjectUnwrap(cs[i].tag, cs[i].content));
    UnwrapReplaces(cs, i, cs[i].tag, cs[i].content);
  }

  /** Backspace at the first text of an object's content reaches the object's own closure, which asks to be unwrapped. */
  lemma UnwrapBubbles(o: Node, search: Search)
    requires o.Object? && |o.content| > 0 && o.content[0].Text?
    ensures Propagate(o, [0], BackspaceAtStart, search) == Replaced(ObjectUnwrap(o.tag, o.content))
  {
    assert [0][1..] == [];
    assert Propagate(o.content[0], [], BackspaceAtStart, search) == Backspaced;
  }

  lemma UnwrapReplaces(cs: seq<Node>, i: nat, tag: string, content: seq<Node>)
    requires i < |cs|
    ensures ListReplace(cs, i, ObjectUnwrap(tag, content)).List?
    ensures NormalList(ListReplace(cs, i, ObjectUnwrap(tag, content)).children)
    ensures TextOf(ListReplace(cs, i, ObjectUnwrap(tag, content)).children)
      == TextOf(Flatten(cs[..i])) + "{" + tag + TextOf(content) + TextOf(Flatten(cs[i + 1..]))
  {
    var u := ObjectUnwrap(tag, content);
    ObjectUnwrapCorrect(tag, content);
    ListReplaceCorrect(cs, i, u);
    var before, after := TextOf(Flatten(cs[..i])), TextOf(Flatten(cs[i + 1..]));
    assert TextOf(Spread(u)) == "{" + tag + TextOf(content);
    assert TextOf(ListReplace(cs, i, u).children) == before + ("{" + tag + TextOf(content)) + after;
    Regroup(before, "{", tag, TextOf(content), after);
  }

  lemma Regroup(a: string, b: string, c: string, d: string, e: string)
    ensures a + (b + c + d) + e == a + b + c + d + e
  {
  }
}
