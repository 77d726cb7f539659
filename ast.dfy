/**
 * The node model of the editor (`AstEle`): a tree of lists, text runs and
 * tagged objects, together with the measures and shape predicates that the
 * normalizer, the focus tracker and the edit operations are specified with.
 */
module Ast {

  /** The optional focus request of a text node (`focus?: "start" | "end"`). */
  datatype Focus = NoFocus | Start | End

  /**
   * `prev.focus || cur.focus` when two text runs are merged: the left request
   * wins when it is present, otherwise the right one is taken.
   */
  function EitherFocus(left: Focus, right: Focus): (f: Focus)
    ensures f == left || f == right
    ensures left != NoFocus ==> f == left
    ensures f == NoFocus <==> left == NoFocus && right == NoFocus
  {
    if left != NoFocus then left else right
  }

  /**
   * A node. An object's content is always a list in the source; here the
   * object holds that list's children directly, so "the content is a list"
   * holds by construction.
   */
  datatype Node =
    | List(children: seq<Node>)
    | Text(text: string, focus: Focus)
    | Object(tag: string, content: seq<Node>)

  /** The empty text run the gap filler inserts (`{ type: "text", text: "" }`). */
  const EmptyText: Node := Text("", NoFocus)

  function Max(a: nat, b: nat): nat
  {
    if a < b then b else a
  }

  /** Nesting depth: a text is 0, a list or object one more than its deepest child. */
  function Height(n: Node): nat
  {
    match n
    case Text(_, _) => 0
    case List(cs) => 1 + MaxHeight(cs)
    case Object(_, cs) => 1 + MaxHeight(cs)
  }

  /** The largest height among a sequence of children (0 for none). */
  function MaxHeight(cs: seq<Node>): (h: nat)
    ensures forall i :: 0 <= i < |cs| ==> Height(cs[i]) <= h
  {
    if cs == [] then 0 else Max(Height(cs[0]), MaxHeight(cs[1..]))
  }

  /** Any bound on every child's height bounds their maximum. */
  lemma {:induction false} MaxHeightAtMost(cs: seq<Node>, h: nat)
    requires forall i :: 0 <= i < |cs| ==> Height(cs[i]) <= h
    ensures MaxHeight(cs) <= h
  {
    if cs != [] {
      assert Height(cs[0]) <= h;
      MaxHeightAtMost(cs[1..], h);
    }
  }

  lemma MaxHeightAppend(a: seq<Node>, b: seq<Node>)
    ensures MaxHeight(a + b) == Max(MaxHeight(a), MaxHeight(b))
  {
    MaxHeightAtMost(a + b, Max(MaxHeight(a), MaxHeight(b))) by {
      forall i | 0 <= i < |a + b|
        ensures Height((a + b)[i]) <= Max(MaxHeight(a), MaxHeight(b))
      {
        if i < |a| {
          assert (a + b)[i] == a[i];
        } else {
          assert (a + b)[i] == b[i - |a|];
        }
      }
    }
    MaxHeightReached(a + b, a, b);
  }

  /** The maximum of a + b is at least that of each part. */
  lemma MaxHeightReached(ab: seq<Node>, a: seq<Node>, b: seq<Node>)
    requires ab == a + b
    ensures MaxHeight(a) <= MaxHeight(ab) && MaxHeight(b) <= MaxHeight(ab)
  {
    MaxHeightAtMost(a, MaxHeight(ab)) by {
      forall i | 0 <= i < |a| ensures Height(a[i]) <= MaxHeight(ab) {
        assert a[i] == ab[i];
      }
    }
    MaxHeightAtMost(b, MaxHeight(ab)) by {
      forall i | 0 <= i < |b| ensures Height(b[i]) <= MaxHeight(ab) {
        assert b[i] == ab[|a| + i];
      }
    }
  }

  // ---------------------------------------------------------------------
  // Shape predicates
  // ---------------------------------------------------------------------

  /** No two consecutive children are both text runs. */
  predicate NoAdjacentTexts(cs: seq<Node>)
  {
    forall i :: 0 < i < |cs| ==> !(cs[i - 1].Text? && cs[i].Text?)
  }

  /** Consecutive children alternate between text and non-text. */
  predicate Alternating(cs: seq<Node>)
  {
    forall i :: 0 < i < |cs| ==> cs[i - 1].Text? != cs[i].Text?
  }

  /**
   * The canonical shape of a child list: never empty, text at both ends, and
   * text and non-text children alternate, so every boundary between two
   * structural nodes has a text run (a caret position) beside it.
   */
  predicate NormalList(cs: seq<Node>)
  {
    |cs| > 0 && cs[0].Text? && cs[|cs| - 1].Text? && Alternating(cs)
  }

  /** Every list in the tree, object contents included, has the canonical shape. */
  predicate WellFormed(n: Node)
  {
    match n
    case Text(_, _) => true
    case List(cs) => NormalList(cs) && forall c :: c in cs ==> WellFormed(c)
    case Object(_, cs) => NormalList(cs) && forall c :: c in cs ==> WellFormed(c)
  }

  /** No list sits directly inside a list or inside an object's content. */
  predicate NoNestedLists(n: Node)
  {
    match n
    case Text(_, _) => true
    case List(cs) => forall c :: c in cs ==> !c.List? && NoNestedLists(c)
    case Object(_, cs) => forall c :: c in cs ==> !c.List? && NoNestedLists(c)
  }

  /** A well-formed node that is not a list and holds no nested list: a child in normal form. */
  predicate Fixed(c: Node)
  {
    WellFormed(c) && !c.List? && NoNestedLists(c)
  }

  // ---------------------------------------------------------------------
  // Views of a child sequence
  // ---------------------------------------------------------------------

  /** The concatenated strings of the direct text children. */
  function TextOf(cs: seq<Node>): string
  {
    if cs == [] then ""
    else (if cs[0].Text? then cs[0].text else "") + TextOf(cs[1..])
  }

  /** The direct non-text children, in order. */
  function NonTexts(cs: seq<Node>): seq<Node>
  {
    if cs == [] then []
    else (if cs[0].Text? then [] else [cs[0]]) + NonTexts(cs[1..])
  }

  lemma {:induction false} TextOfAppend(a: seq<Node>, b: seq<Node>)
    ensures TextOf(a + b) == TextOf(a) + TextOf(b)
  {
    if a == [] {
      assert a + b == b;
    } else {
      assert (a + b)[1..] == a[1..] + b;
      TextOfAppend(a[1..], b);
    }
  }

  lemma {:induction false} NonTextsAppend(a: seq<Node>, b: seq<Node>)
    ensures NonTexts(a + b) == NonTexts(a) + NonTexts(b)
  {
    if a == [] {
      assert a + b == b;
    } else {
      assert (a + b)[1..] == a[1..] + b;
      NonTextsAppend(a[1..], b);
    }
  }

  /** A text leaf of the tree: its string and its focus request. */
  datatype Leaf = Leaf(text: string, focus: Focus)

  /** All text nodes of a tree in document order. */
  function Leaves(n: Node): seq<Leaf>
  {
    match n
    case Text(t, f) => [Leaf(t, f)]
    case List(cs) => LeavesOf(cs)
    case Object(_, cs) => LeavesOf(cs)
  }

  function LeavesOf(cs: seq<Node>): seq<Leaf>
  {
    if cs == [] then [] else LeavesOf(cs[..|cs| - 1]) + Leaves(cs[|cs| - 1])
  }

  lemma {:induction false} LeavesOfAppend(a: seq<Node>, b: seq<Node>)
    ensures LeavesOf(a + b) == LeavesOf(a) + LeavesOf(b)
  {
    if b == [] {
      assert a + b == a;
    } else {
      assert (a + b)[..|a + b| - 1] == a + b[..|b| - 1];
      LeavesOfAppend(a, b[..|b| - 1]);
    }
  }

  /** The same sequence of leaves with the request of the last one set to `End`. */
  function MarkLastLeaf(ls: seq<Leaf>): seq<Leaf>
  {
    if ls == [] then [] else ls[..|ls| - 1] + [Leaf(ls[|ls| - 1].text, End)]
  }

  /** The tree with every focus request removed: what is left when foci are ignored. */
  function Erase(n: Node): Node
  {
    match n
    case Text(t, _) => Text(t, NoFocus)
    case List(cs) => List(EraseAll(cs))
    case Object(tag, cs) => Object(tag, EraseAll(cs))
  }

  function EraseAll(cs: seq<Node>): (r: seq<Node>)
    ensures |r| == |cs|
  {
    if cs == [] then [] else EraseAll(cs[..|cs| - 1]) + [Erase(cs[|cs| - 1])]
  }
}
