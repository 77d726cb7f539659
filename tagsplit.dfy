/**
 * The pattern that turns typed `{name ` into a tag: `/^(.*)\{([a-z0-9]+) (.*)$/i`,
 * matched by hand. The greedy `(.*)` makes the split the LAST `{` that is
 * followed by one or more ASCII letters or digits and then a space. `.`
 * matches no line terminator and the pattern is anchored at both ends, so a
 * string holding one never matches.
 */
module TagSplit {

  datatype Option<T> = None | Some(value: T)

  /** `[a-z0-9]` under the `i` flag: an ASCII letter of either case or a digit. */
  predicate IsTagChar(c: char)
  {
    ('a' <= c <= 'z') || ('A' <= c <= 'Z') || ('0' <= c <= '9')
  }

  /** The characters `.` does not match: line feed, carriage return, line and paragraph separators. */
  predicate IsLineTerminator(c: char)
  {
    c == '\n' || c == '\r' || c == '\U{2028}' || c == '\U{2029}'
  }

  predicate AllTagChars(s: string)
  {
    forall i :: 0 <= i < |s| ==> IsTagChar(s[i])
  }

  predicate NoLineTerminator(s: string)
  {
    forall i :: 0 <= i < |s| ==> !IsLineTerminator(s[i])
  }

  /** The three capture groups: `match[1]`, `match[2]`, `match[3]`. */
  datatype Split = Split(prefix: string, tag: string, suffix: string)

  /** `m` is a way for the pattern to match `s`. */
  predicate IsSplit(s: string, m: Split)
  {
    && s == m.prefix + "{" + m.tag + " " + m.suffix
    && |m.tag| > 0 && AllTagChars(m.tag)
    && NoLineTerminator(s)
  }

  /** The end of the run of tag characters that starts at `i`. */
  function RunEnd(s: string, i: nat): (j: nat)
    requires i <= |s|
    decreases |s| - i
    ensures i <= j <= |s|
    ensures forall k :: i <= k < j ==> IsTagChar(s[k])
    ensures j < |s| ==> !IsTagChar(s[j])
  {
    if i < |s| && IsTagChar(s[i]) then RunEnd(s, i + 1) else i
  }

  /** A `{` at `k` followed by a non-empty run of tag characters and a space. */
  predicate OpensAt(s: string, k: nat)
  {
    k + 1 < |s| && s[k] == '{' &&
    var j := RunEnd(s, k + 1); k + 1 < j < |s| && s[j] == ' '
  }

  /** The largest position below `k` where a tag opens, trying positions from the top as the greedy prefix does. */
  function LastOpen(s: string, k: nat): (r: Option<nat>)
    requires k <= |s|
    ensures r.Some? ==> r.value < k && OpensAt(s, r.value)
    ensures r.Some? ==> forall k' :: r.value < k' < k ==> !OpensAt(s, k')
    ensures r.None? ==> forall k' :: 0 <= k' < k ==> !OpensAt(s, k')
  {
    if k == 0 then None
    else if OpensAt(s, k - 1) then Some(k - 1)
    else LastOpen(s, k - 1)
  }

  /** `/^(.*)\{([a-z0-9]+) (.*)$/i.exec(s)`: the capture groups, or no match. */
  function MatchTagOpen(s: string): (r: Option<Split>)
    ensures r.Some? ==> IsSplit(s, r.value)
  {
    if !NoLineTerminator(s) then None
    else
      match LastOpen(s, |s|)
      case None => None
      case Some(k) =>
        var j := RunEnd(s, k + 1);
        Some(Split(s[..k], s[k + 1..j], s[j + 1..]))
  }

  /** Every way of matching opens a tag right after its prefix. */
  lemma SplitOpens(s: string, m: Split)
    requires IsSplit(s, m)
    ensures OpensAt(s, |m.prefix|)
    ensures RunEnd(s, |m.prefix| + 1) == |m.prefix| + 1 + |m.tag|
  {
    var k := |m.prefix|;
    var j := k + 1 + |m.tag|;
    assert s[k] == '{';
    assert s[j] == ' ';
    forall i | k + 1 <= i < j ensures IsTagChar(s[i]) {
      assert s[i] == m.tag[i - k - 1];
    }
    RunEndAt(s, k + 1, j);
  }

  lemma {:induction false} RunEndAt(s: string, i: nat, j: nat)
    requires i <= j < |s|
    requires forall k :: i <= k < j ==> IsTagChar(s[k])
    requires !IsTagChar(s[j])
    ensures RunEnd(s, i) == j
    decreases j - i
  {
    if i < j {
      RunEndAt(s, i + 1, j);
    }
  }

  /**
   * The matcher is sound and complete and picks the last opening: a result
   * is a match, it has the longest prefix of all matches, and there is no
   * result exactly when nothing matches.
   */
  lemma MatchTagOpenCorrect(s: string)
    ensures MatchTagOpen(s).Some? ==> IsSplit(s, MatchTagOpen(s).value)
    ensures MatchTagOpen(s).Some? ==>
      forall m :: IsSplit(s, m) ==> |m.prefix| <= |MatchTagOpen(s).value.prefix|
    ensures MatchTagOpen(s).None? ==> forall m :: !IsSplit(s, m)
  {
    var r := MatchTagOpen(s);
    if r.Some? {
      var k := LastOpen(s, |s|).value;
      var j := RunEnd(s, k + 1);
      var m := r.value;
      assert s == s[..k] + "{" + s[k + 1..j] + " " + s[j + 1..];
      forall m' | IsSplit(s, m') ensures |m'.prefix| <= k {
        SplitOpens(s, m');
      }
    } else {
      forall m | IsSplit(s, m) ensures false {
        SplitOpens(s, m);
      }
    }
  }

  /** Once the opening is fixed the match is fixed: the tag is the whole run after `{`. */
  lemma SplitDeterminedByPrefix(s: string, m: Split, m': Split)
    requires IsSplit(s, m) && IsSplit(s, m') && |m.prefix| == |m'.prefix|
    ensures m == m'
  {
    SplitOpens(s, m);
    SplitOpens(s, m');
    assert m.prefix == s[..|m.prefix|] == m'.prefix;
    assert m.tag == s[|m.prefix| + 1..|m.prefix| + 1 + |m.tag|] == m'.tag;
    assert m.suffix == s[|m.prefix| + 2 + |m.tag|..] == m'.suffix;
  }

  /** Typing `hello {foo bar` splits into `hello `, tag `foo` and `bar`. */
  lemma MatchHelloFoo()
    ensures MatchTagOpen("hello {foo bar") == Some(Split("hello ", "foo", "bar"))
  {
    var s := "hello {foo bar";
    assert NoLineTerminator(s);
    assert !OpensAt(s, 13) && !OpensAt(s, 12) && !OpensAt(s, 11) && !OpensAt(s, 10);
    assert !OpensAt(s, 9) && !OpensAt(s, 8) && !OpensAt(s, 7);
    assert RunEnd(s, 7) == 10;
    assert OpensAt(s, 6);
    assert LastOpen(s, 14) == Some(6);
    assert s[..6] == "hello " && s[7..10] == "foo" && s[11..] == "bar";
  }

  /** With two openings the later one wins: `a{b c{d e` gives prefix `a{b c`, tag `d`, suffix `e`. */
  lemma MatchPicksLastOpening()
    ensures MatchTagOpen("a{b c{d e") == Some(Split("a{b c", "d", "e"))
  {
    var s := "a{b c{d e";
    var m := Split("a{b c", "d", "e");
    assert IsSplit(s, m);
    MatchTagOpenCorrect(s);
    var r := MatchTagOpen(s).value;
    SplitOpens(s, r);
    assert |r.prefix| == 5;
    SplitDeterminedByPrefix(s, m, r);
  }

  /** A tag needs its trailing space: `x{foo` does not match. */
  lemma NoMatchWithoutSpace()
    ensures MatchTagOpen("x{foo") == None
  {
    var s := "x{foo";
    MatchTagOpenCorrect(s);
    if MatchTagOpen(s).Some? {
      var r := MatchTagOpen(s).value;
      assert |s| == |r.prefix| + |r.tag| + |r.suffix| + 2;
      SplitOpens(s, r);
      assert false;
    }
  }
}
