/** suffix_tree_search and search: a read-only walk that compares the
    pattern with one label at a time and never backtracks. */
module Searching {
  import opened Spans
  import opened Links
  import opened Trees

  datatype Option<T> = None | Some(value: T)

  /** search: `pattern` is what is left to match and `consumed` the number
      of bytes matched before it (pattern - orig_pattern in the source). A
      label that does not match moves the walk to the next sibling; a label
      that matches in full moves it to the first child with the rest of the
      pattern; a pattern that ends inside a matching label is found, at the
      label's start minus `consumed`. */
  function SearchFrom(t: Tree, node: int, pattern: seq<char>, consumed: int): (r: Option<int>)
    requires WellFormed(t) && InRange(node, |t.suffix|) && |pattern| > 0
    ensures r.Some? ==> r.value + consumed + |pattern| <= |t.text|
    decreases if node == NIL then 0 else RankOf(t, node) + 1
  {
    if node == NIL then None
    else
      RankDrops(t, node);
      var s := t.suffix[node];
      if |pattern| <= s.len then
        if Label(t, node)[..|pattern|] != pattern then SearchFrom(t, t.nextSibling[node], pattern, consumed)
        else Some(s.str - consumed)
      else
        if Label(t, node) != pattern[..s.len] then SearchFrom(t, t.nextSibling[node], pattern, consumed)
        else SearchFrom(t, t.firstChild[node], pattern[s.len..], consumed + s.len)
  }

  /** suffix_tree_search: nothing is found for an empty pattern or in an
      empty tree; otherwise the walk starts at the root's list. A position
      found leaves room for the whole pattern before the end of the text. */
  function Search(t: Tree, pattern: seq<char>): (r: Option<int>)
    requires WellFormed(t)
    ensures |pattern| == 0 || t.root == NIL ==> r == None
    ensures r.Some? ==> r.value + |pattern| <= |t.text|
  {
    if |pattern| == 0 then None
    else if t.root == NIL then None
    else SearchFrom(t, t.root, pattern, 0)
  }

  /** A label that does not match the pattern (up to the shorter of the
      two) sends the walk to the next sibling, never below the node. */
  lemma SearchSkips(t: Tree, node: int, pattern: seq<char>, consumed: int)
    requires WellFormed(t) && 0 <= node < |t.suffix| && |pattern| > 0
    requires var n := t.suffix[node].len;
      if |pattern| <= n then Label(t, node)[..|pattern|] != pattern else Label(t, node) != pattern[..n]
    ensures InRange(t.nextSibling[node], |t.suffix|)
    ensures SearchFrom(t, node, pattern, consumed) == SearchFrom(t, t.nextSibling[node], pattern, consumed)
  {
    RankDrops(t, node);
  }

  /** A label that is a proper prefix of the pattern sends the walk to the
      first child with the rest of the pattern. */
  lemma SearchDescends(t: Tree, node: int, pattern: seq<char>, consumed: int)
    requires WellFormed(t) && 0 <= node < |t.suffix|
    requires |pattern| > t.suffix[node].len && Label(t, node) == pattern[..t.suffix[node].len]
    ensures InRange(t.firstChild[node], |t.suffix|)
    ensures SearchFrom(t, node, pattern, consumed)
      == SearchFrom(t, t.firstChild[node], pattern[t.suffix[node].len..], consumed + t.suffix[node].len)
  {
    RankDrops(t, node);
  }

  /** A pattern that the label starts with is found at the label's start
      minus the bytes consumed. */
  lemma SearchHits(t: Tree, node: int, pattern: seq<char>, consumed: int)
    requires WellFormed(t) && 0 <= node < |t.suffix| && 0 < |pattern| <= t.suffix[node].len
    requires Label(t, node)[..|pattern|] == pattern
    ensures SearchFrom(t, node, pattern, consumed) == Some(t.suffix[node].str - consumed)
  {
  }

  /** The labels of the nodes on `path`, one after the other. */
  ghost function Spelled(t: Tree, path: seq<int>): seq<char>
    requires LabelsInText(t.text, t.suffix)
    requires forall i :: 0 <= i < |path| ==> 0 <= path[i] < |t.suffix|
  {
    if path == [] then [] else Label(t, path[0]) + Spelled(t, path[1..])
  }

  /** `path` goes down the tree from the list that starts at `head`: its
      first node is on that list and every later node is a child of the one
      before it. */
  ghost predicate IsPath(t: Tree, head: int, path: seq<int>)
    requires WellFormed(t) && InRange(head, |t.suffix|)
  {
    && |path| > 0
    && (forall i :: 0 <= i < |path| ==> 0 <= path[i] < |t.suffix|)
    && path[0] in SiblingList(t, head)
    && forall i :: 0 <= i < |path| - 1 ==> path[i + 1] in Children(t, path[i])
  }

  /** What a hit at position `x` means: `path` goes down from the list at
      `head`, the full labels of all but its last node spell the start of
      the pattern, the last label starts with the rest, and `x` is the last
      label's start minus the `consumed` bytes and the bytes before it. */
  ghost predicate Explains(t: Tree, head: int, pattern: seq<char>, consumed: int, path: seq<int>, x: int)
    requires WellFormed(t) && InRange(head, |t.suffix|)
  {
    && IsPath(t, head, path)
    && var last, before := path[|path| - 1], Spelled(t, path[..|path| - 1]);
      && |before| < |pattern| <= |before| + t.suffix[last].len
      && pattern == before + Label(t, last)[..|pattern| - |before|]
      && x == t.suffix[last].str - consumed - |before|
  }

  /** Every hit of search is explained by the path the walk took. */
  lemma {:induction false} SearchFromSound(t: Tree, node: int, pattern: seq<char>, consumed: int)
    returns (path: seq<int>)
    requires WellFormed(t) && InRange(node, |t.suffix|) && |pattern| > 0
    requires SearchFrom(t, node, pattern, consumed).Some?
    ensures Explains(t, node, pattern, consumed, path, SearchFrom(t, node, pattern, consumed).value)
    decreases if node == NIL then 0 else RankOf(t, node) + 1
  {
    RankDrops(t, node);
    var s := t.suffix[node];
    var r := SearchFrom(t, node, pattern, consumed);
    if (|pattern| <= s.len && Label(t, node)[..|pattern|] != pattern)
      || (|pattern| > s.len && Label(t, node) != pattern[..s.len])
    {
      assert r == SearchFrom(t, t.nextSibling[node], pattern, consumed);
      path := SearchFromSound(t, t.nextSibling[node], pattern, consumed);
      PathFromSibling(t, node, path);
    } else if |pattern| <= s.len {
      path := [node];
      ExplainsHere(t, node, pattern, consumed);
    } else {
      assert r == SearchFrom(t, t.firstChild[node], pattern[s.len..], consumed + s.len);
      var sub := SearchFromSound(t, t.firstChild[node], pattern[s.len..], consumed + s.len);
      path := ExplainsBelow(t, node, pattern, consumed, sub, r.value);
    }
  }

  /** A pattern that ends inside the label of `node` is explained by [node]. */
  lemma ExplainsHere(t: Tree, node: int, pattern: seq<char>, consumed: int)
    requires WellFormed(t) && 0 <= node < |t.suffix| && 0 < |pattern| <= t.suffix[node].len
    requires Label(t, node)[..|pattern|] == pattern
    ensures Explains(t, node, pattern, consumed, [node], t.suffix[node].str - consumed)
  {
    PathFromSibling(t, node, []);
    assert [node][..0] == [];
  }

  /** A match of the whole label of `node` followed by a hit below it. */
  lemma ExplainsBelow(t: Tree, node: int, pattern: seq<char>, consumed: int, sub: seq<int>, x: int)
    returns (path: seq<int>)
    requires WellFormed(t) && 0 <= node < |t.suffix| && |pattern| > t.suffix[node].len
    requires Label(t, node) == pattern[..t.suffix[node].len]
    requires InRange(t.firstChild[node], |t.suffix|)
    requires Explains(t, t.firstChild[node], pattern[t.suffix[node].len..], consumed + t.suffix[node].len, sub, x)
    ensures path == [node] + sub
    ensures Explains(t, node, pattern, consumed, path, x)
  {
    path := PathThroughChild(t, node, sub);
    assert pattern == pattern[..t.suffix[node].len] + pattern[t.suffix[node].len..];
  }

  /** A path from the next sibling's list is a path from this node's list,
      and this node is on its own list. */
  lemma PathFromSibling(t: Tree, node: int, path: seq<int>)
    requires WellFormed(t) && 0 <= node < |t.suffix|
    requires path != [] ==> IsPath(t, t.nextSibling[node], path)
    ensures path != [] ==> IsPath(t, node, path)
    ensures IsPath(t, node, [node])
  {
    RankDrops(t, node);
    assert SiblingList(t, node) == [node] + SiblingList(t, t.nextSibling[node]);
  }

  /** A path below `node` extends, through `node`, to a path from its list;
      the labels before the last node gain the label of `node` in front. */
  lemma PathThroughChild(t: Tree, node: int, sub: seq<int>) returns (path: seq<int>)
    requires WellFormed(t) && 0 <= node < |t.suffix|
    requires IsPath(t, t.firstChild[node], sub)
    ensures path == [node] + sub && IsPath(t, node, path)
    ensures path[|path| - 1] == sub[|sub| - 1]
    ensures Spelled(t, path[..|path| - 1]) == Label(t, node) + Spelled(t, sub[..|sub| - 1])
  {
    path := [node] + sub;
    PathFromSibling(t, node, []);
    assert path[..|path| - 1] == [node] + sub[..|sub| - 1];
    assert path[..|path| - 1][1..] == sub[..|sub| - 1];
    forall i | 0 <= i < |path| - 1 ensures path[i + 1] in Children(t, path[i]) {
      if i > 0 {
        assert path[i] == sub[i - 1] && path[i + 1] == sub[i];
      }
    }
  }

  /** suffix_tree_search in the same terms, from the root's list. */
  lemma SearchSound(t: Tree, pattern: seq<char>) returns (path: seq<int>)
    requires WellFormed(t) && Search(t, pattern).Some?
    ensures t.root != NIL && Explains(t, t.root, pattern, 0, path, Search(t, pattern).value)
  {
    path := SearchFromSound(t, t.root, pattern, 0);
  }
}
