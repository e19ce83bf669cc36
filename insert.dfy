/** The insertion of one suffix (add_node, add_node2, split_node,
    add_child_node) and the construction loop of suffix_tree_create2, as
    functions from the arena before to the arena after. */
module Insertion {
  import opened Spans
  import opened Links
  import opened Trees

  /** add_child_node: `child` goes in front of the child list of `parent`.
      The source asserts that `child` has no next sibling yet. */
  function AddChildNode(t: Tree, parent: int, child: int): (r: Tree)
    requires Shaped(t) && 0 <= parent < |t.suffix| && 0 <= child < |t.suffix|
    requires t.nextSibling[child] == NIL
    ensures Shaped(r) && r.suffix == t.suffix && r.text == t.text && r.root == t.root
  {
    t.(firstChild := t.firstChild[parent := child],
       nextSibling := t.nextSibling[child := t.firstChild[parent]])
  }

  /** The two links add_child_node writes: `child` heads the child list of
      `parent` and points at the old head; no other link moves. */
  lemma AddChildNodeLinks(t: Tree, parent: int, child: int)
    requires Shaped(t) && 0 <= parent < |t.suffix| && 0 <= child < |t.suffix|
    requires t.nextSibling[child] == NIL
    ensures var r := AddChildNode(t, parent, child);
      && r.firstChild[parent] == child && r.nextSibling[child] == t.firstChild[parent]
      && (forall j :: 0 <= j < |t.suffix| && j != parent ==> r.firstChild[j] == t.firstChild[j])
      && (forall j :: 0 <= j < |t.suffix| && j != child ==> r.nextSibling[j] == t.nextSibling[j])
  { }

  /** Pushing a spare child keeps the invariant; the child list of `parent`
      gains `child` in front, and every other list stays as it was. */
  lemma AddChildNodeSpec(t: Tree, spare: set<int>, parent: int, child: int)
    requires Inv(t, spare) && child in spare && 0 <= parent < |t.suffix| && parent !in spare
    ensures Shaped(t) && t.nextSibling[child] == NIL
    ensures Inv(AddChildNode(t, parent, child), spare - {child})
    ensures var r := AddChildNode(t, parent, child);
      && Children(r, parent) == [child] + Children(t, parent)
      && forall x :: InRange(x, |t.suffix|) && x != child ==> SiblingList(r, x) == SiblingList(t, x)
  {
    Rooted(t, spare, parent);
    PushChildInv(t, spare, parent, child);
    var r := AddChildNode(t, parent, child);
    forall x | InRange(x, |t.suffix|) && x != child
      ensures SiblingList(r, x) == SiblingList(t, x)
    {
      UnlinkedNotListed(t, x, child);
      SiblingListFrame(t, r, x);
    }
    assert t.firstChild[parent] != child;
    RankDrops(r, child);
  }

  /** split_node: the label of `parent` keeps its first `offset` bytes, a new
      node takes the rest, `child0` loses its first `offset` bytes, and both
      go in front of the child list of `parent`, which keeps its old
      children. A single-byte `child0` is pushed unchanged. The requires are
      the source's assertions. */
  function SplitNode(t: Tree, parent: int, child0: int, offset: int): (r: Tree)
    requires Shaped(t) && 0 <= parent < |t.suffix| && 0 <= child0 < |t.suffix| && parent != child0
    requires t.nextSibling[child0] == NIL
    requires 0 < offset < t.suffix[parent].len && t.suffix[parent].len > 1
    requires t.suffix[child0].len > 0
    requires t.suffix[child0].len == 1 || offset < t.suffix[child0].len
    ensures Shaped(r) && r.text == t.text && r.root == t.root
    ensures |t.suffix| <= |r.suffix| <= |t.suffix| + 1
    ensures forall i :: 0 <= i < |t.suffix| && i != parent && i != child0 ==>
      r.suffix[i] == t.suffix[i] && r.firstChild[i] == t.firstChild[i] && r.nextSibling[i] == t.nextSibling[i]
  {
    if t.suffix[child0].len == 1 then
      AddChildNode(t, parent, child0)
    else
      var t2 := CutLabels(t, parent, child0, offset);
      AddChildNode(AddChildNode(t2, parent, child0), parent, |t.suffix|)
  }

  /** The label work of split_node, before any link changes: a tail node
      for bytes `offset ..` of the label of `parent`, `child0` stripped of
      its first `offset` bytes, and `parent` cut to its first `offset`. */
  function CutLabels(t: Tree, parent: int, child0: int, offset: int): (r: Tree)
    requires 0 <= parent < |t.suffix| && 0 <= child0 < |t.suffix|
    ensures var tail := |t.suffix|;
      && |r.suffix| == tail + 1 && r.text == t.text && r.root == t.root
      && r.suffix[parent].str == t.suffix[parent].str && r.suffix[parent].len == offset
      && r.suffix[parent].str + r.suffix[parent].len == r.suffix[tail].str
      && r.suffix[tail].str + r.suffix[tail].len == t.suffix[parent].str + t.suffix[parent].len
    ensures parent != child0 ==>
      && r.suffix[child0].str == t.suffix[child0].str + offset
      && r.suffix[child0].str + r.suffix[child0].len == t.suffix[child0].str + t.suffix[child0].len
    ensures forall j :: 0 <= j < |t.suffix| && j != parent && j != child0 ==> r.suffix[j] == t.suffix[j]
  {
    var p, c := t.suffix[parent], t.suffix[child0];
    var t1 := Alloc(t, Span(p.str + offset, p.len - offset));
    Relabel(Relabel(t1, child0, Span(c.str + offset, c.len - offset)), parent, Span(p.str, offset))
  }

  /** The cut keeps every label inside the text; the two pieces of the old
      label of `parent` are the new label of `parent` and the tail's. */
  lemma CutLabelsSpec(t: Tree, parent: int, child0: int, offset: int)
    requires Pending(t, child0) && 0 <= parent < |t.suffix| && parent != child0
    requires 0 < offset < t.suffix[parent].len && offset < t.suffix[child0].len
    ensures var r := CutLabels(t, parent, child0, offset); var tail := |t.suffix|;
      && Inv(r, {child0, tail})
      && |r.suffix| == tail + 1
      && r.firstChild == t.firstChild + [NIL] && r.nextSibling == t.nextSibling + [NIL]
      && r.suffix[parent] == Span(t.suffix[parent].str, offset)
      && Label(r, parent) + Label(r, tail) == Label(t, parent)
      && Label(r, child0) == Label(t, child0)[offset..]
  {
    var p, c := t.suffix[parent], t.suffix[child0];
    var tail := |t.suffix|;
    var sp, sc, st := Span(p.str, offset), Span(c.str + offset, c.len - offset), Span(p.str + offset, p.len - offset);
    var t1 := Alloc(t, st);
    AllocInv(t, {child0}, st);
    RelabelInv(t1, {child0, tail}, child0, sc);
    RelabelInv(Relabel(t1, child0, sc), {child0, tail}, parent, sp);
    assert t.text[p.str .. p.str + p.len] == t.text[p.str .. p.str + offset] + t.text[p.str + offset .. p.str + p.len];
  }

  /** split_node as add_node2 calls it (0 < offset < both lengths): the
      single-byte branch is not taken, one node is added, the two labels
      are cut as described and the tree stays valid. */
  lemma SplitNodeSpec(t: Tree, parent: int, child0: int, offset: int)
    requires Pending(t, child0) && 0 <= parent < |t.suffix| && parent != child0
    requires 0 < offset < t.suffix[parent].len && offset < t.suffix[child0].len
    ensures Shaped(t) && t.nextSibling[child0] == NIL
    ensures var r := SplitNode(t, parent, child0, offset); var tail := |t.suffix|;
      && Valid(r)
      && |r.suffix| == |t.suffix| + 1
      && r.firstChild[parent] == tail && r.nextSibling[tail] == child0
      && r.nextSibling[child0] == t.firstChild[parent]
      && r.suffix[parent] == Span(t.suffix[parent].str, offset)
      && r.suffix[child0] == Span(t.suffix[child0].str + offset, t.suffix[child0].len - offset)
      && Label(r, parent) + Label(r, tail) == Label(t, parent)
      && Label(r, child0) == Label(t, child0)[offset..]
      && Children(r, parent) == [tail, child0] + Children(t, parent)
      && Children(r, tail) == []
      && forall x :: InRange(x, |t.suffix|) && x != child0 ==> SiblingList(r, x) == SiblingList(t, x)
  {
    PendingIsolated(t, child0);
    var tail := |t.suffix|;
    var t2 := CutLabels(t, parent, child0, offset);
    CutLabelsSpec(t, parent, child0, offset);
    AddChildNodeSpec(t2, {child0, tail}, parent, child0);
    var t3 := AddChildNode(t2, parent, child0);
    assert {child0, tail} - {child0} == {tail};
    AddChildNodeSpec(t3, {tail}, parent, tail);
    var r := AddChildNode(t3, parent, tail);
    assert {tail} - {tail} == {};
    InvWellFormed(t, {child0});
    SplitNodeLists(t, t2, t3, r, parent, child0);
    SplitNodeOtherLists(t, t2, t3, r, child0);
  }

  /** The list part of SplitNodeSpec, once the two pushes are known. */
  lemma SplitNodeLists(t: Tree, t2: Tree, t3: Tree, r: Tree, parent: int, child0: int)
    requires WellFormed(t) && 0 <= parent < |t.suffix| && 0 <= child0 < |t.suffix|
    requires WellFormed(t2) && WellFormed(t3) && WellFormed(r)
    requires |t2.suffix| == |t3.suffix| == |r.suffix| == |t.suffix| + 1
    requires t2.firstChild == t.firstChild + [NIL] && t2.nextSibling == t.nextSibling + [NIL]
    requires Children(t3, parent) == [child0] + Children(t2, parent)
    requires Children(r, parent) == [|t.suffix|] + Children(t3, parent)
    requires r.firstChild[|t.suffix|] == NIL
    ensures Children(r, parent) == [|t.suffix|, child0] + Children(t, parent)
    ensures Children(r, |t.suffix|) == []
  {
    SiblingListAppend(t, t2, t.firstChild[parent]);
    assert SiblingList(r, r.firstChild[|t.suffix|]) == [];
  }

  /** The other lists of SplitNodeSpec: neither push touches them. */
  lemma SplitNodeOtherLists(t: Tree, t2: Tree, t3: Tree, r: Tree, child0: int)
    requires WellFormed(t) && WellFormed(t2) && WellFormed(t3) && WellFormed(r)
    requires |t2.suffix| == |t3.suffix| == |r.suffix| == |t.suffix| + 1
    requires t2.nextSibling == t.nextSibling + [NIL]
    requires forall x :: InRange(x, |t2.suffix|) && x != child0 ==> SiblingList(t3, x) == SiblingList(t2, x)
    requires forall x :: InRange(x, |t3.suffix|) && x != |t.suffix| ==> SiblingList(r, x) == SiblingList(t3, x)
    ensures forall x :: InRange(x, |t.suffix|) && x != child0 ==> SiblingList(r, x) == SiblingList(t, x)
  {
    forall x | InRange(x, |t.suffix|) && x != child0
      ensures SiblingList(r, x) == SiblingList(t, x)
    {
      SiblingListAppend(t, t2, x);
    }
  }

  /** add_node2: inserts the pending node `node` into the list that holds
      `walk`, by the four cases on their common prefix `offset`: next
      sibling (or append at the end of the list), discard, strip and
      descend (or attach as first child), split. */
  function AddNode2(t: Tree, walk: int, node: int): (r: Tree)
    requires Pending(t, node) && 0 <= walk < |t.suffix| && walk != node
    ensures Shaped(r) && |t.suffix| - 1 <= |r.suffix| <= |t.suffix| + 1
    decreases RankOf(t, walk)
  {
    PendingIsolated(t, node);
    RankDrops(t, walk);
    var offset := Lcp(Label(t, walk), Label(t, node));
    if offset == 0 then
      if t.nextSibling[walk] == NIL then t.(nextSibling := t.nextSibling[walk := node])
      else AddNode2(t, t.nextSibling[walk], node)
    else if offset == t.suffix[node].len then
      Free(t, node)
    else if offset == t.suffix[walk].len then
      StripInv(t, node, offset);
      var t1 := Strip(t, node, offset);
      if t.firstChild[walk] == NIL then t1.(firstChild := t1.firstChild[walk := node])
      else AddNode2(t1, t.firstChild[walk], node)
    else
      SplitNode(t, walk, node, offset)
  }

  /** The pending node without its first `offset` bytes. */
  function Strip(t: Tree, node: int, offset: int): (r: Tree)
    requires 0 <= node < |t.suffix|
    ensures |r.suffix| == |t.suffix| && r.text == t.text && r.root == t.root
    ensures r.firstChild == t.firstChild && r.nextSibling == t.nextSibling
    ensures r.suffix[node].str == t.suffix[node].str + offset
    ensures r.suffix[node].str + r.suffix[node].len == t.suffix[node].str + t.suffix[node].len
    ensures forall i :: 0 <= i < |t.suffix| && i != node ==> r.suffix[i] == t.suffix[i]
  {
    var s := t.suffix[node];
    Relabel(t, node, Span(s.str + offset, s.len - offset))
  }

  /** Stripping fewer bytes than the label has keeps the node pending and
      changes nothing once the node is released. */
  lemma StripInv(t: Tree, node: int, offset: int)
    requires Pending(t, node) && 0 < offset < t.suffix[node].len
    ensures Pending(Strip(t, node, offset), node)
    ensures Label(Strip(t, node, offset), node) == Label(t, node)[offset..]
    ensures Free(Strip(t, node, offset), node) == Free(t, node)
  {
    var s := t.suffix[node];
    RelabelInv(t, {node}, node, Span(s.str + offset, s.len - offset));
    assert t.suffix[node := Span(s.str + offset, s.len - offset)][..node] == t.suffix[..node];
  }

  /** Each add_node2 step keeps the tree valid and links the pending node
      in, or releases it, giving back the tree it was allocated in; root and
      text stay, at most one node (a split's tail) is added, and the labels
      of the other nodes keep their start and can only get shorter. */
  lemma {:induction false} AddNode2Spec(t: Tree, walk: int, node: int)
    requires Pending(t, node) && 0 <= walk < |t.suffix| && walk != node
    ensures var r := AddNode2(t, walk, node);
      && Valid(r) && r.text == t.text && r.root == t.root
      && |t.suffix| - 1 <= |r.suffix| <= |t.suffix| + 1
      && (|r.suffix| < |t.suffix| ==> r == Free(t, node))
      && forall i :: 0 <= i < node ==> r.suffix[i].str == t.suffix[i].str && r.suffix[i].len <= t.suffix[i].len
    decreases RankOf(t, walk)
  {
    PendingIsolated(t, node);
    Rooted(t, {node}, walk);
    RankDrops(t, walk);
    var r := AddNode2(t, walk, node);
    var offset := Lcp(Label(t, walk), Label(t, node));
    if offset == 0 {
      if t.nextSibling[walk] == NIL {
        AttachSiblingInv(t, {node}, walk, node);
      } else {
        AddNode2Spec(t, t.nextSibling[walk], node);
      }
    } else if offset == t.suffix[node].len {
      FreeInv(t, {node}, node);
    } else if offset == t.suffix[walk].len {
      StripInv(t, node, offset);
      var t1 := Strip(t, node, offset);
      if t.firstChild[walk] == NIL {
        AttachChildInv(t1, {node}, walk, node);
      } else {
        AddNode2Spec(t1, t.firstChild[walk], node);
      }
    } else {
      SplitNodeSpec(t, walk, node, offset);
    }
  }

  /** When the pending label is a prefix of the label of `walk` (equal to
      it or shorter), add_node2 releases the pending node: the tree is the
      one it was allocated in. */
  lemma AddNode2Discards(t: Tree, walk: int, node: int)
    requires Pending(t, node) && 0 <= walk < |t.suffix| && walk != node
    requires t.suffix[node].len <= t.suffix[walk].len && Label(t, walk)[..t.suffix[node].len] == Label(t, node)
    ensures AddNode2(t, walk, node) == Free(t, node)
  {
    PendingIsolated(t, node);
    var n := t.suffix[node].len;
    assert Label(t, node)[..n] == Label(t, node);
    LcpUnique(Label(t, walk), Label(t, node), n);
  }

  /** When the label of `walk` is a proper prefix of the pending label and
      `walk` has children, add_node2 goes on in the child list with the
      pending node stripped of that prefix. */
  lemma AddNode2Descends(t: Tree, walk: int, node: int)
    requires Pending(t, node) && 0 <= walk < |t.suffix| && walk != node
    requires var offset := Lcp(Label(t, walk), Label(t, node));
      offset != 0 && offset != t.suffix[node].len && offset == t.suffix[walk].len
    requires t.firstChild[walk] != NIL
    ensures Pending(Strip(t, node, t.suffix[walk].len), node)
    ensures AddNode2(t, walk, node) == AddNode2(Strip(t, node, t.suffix[walk].len), t.firstChild[walk], node)
  {
    PendingIsolated(t, node);
    StripInv(t, node, t.suffix[walk].len);
  }

  /** With no common prefix and no next sibling, add_node2 appends the
      pending node at the end of the list of `walk`: it becomes the next
      sibling of `walk`, keeps its own empty links, and no label or other
      link changes. */
  lemma AddNode2Appends(t: Tree, walk: int, node: int)
    requires Pending(t, node) && 0 <= walk < |t.suffix| && walk != node
    requires Lcp(Label(t, walk), Label(t, node)) == 0 && t.nextSibling[walk] == NIL
    ensures var r := AddNode2(t, walk, node);
      && r.suffix == t.suffix && r.firstChild == t.firstChild && r.root == t.root
      && r.nextSibling[walk] == node && r.firstChild[node] == NIL && r.nextSibling[node] == NIL
      && forall j :: 0 <= j < |t.suffix| && j != walk ==> r.nextSibling[j] == t.nextSibling[j]
  {
    PendingIsolated(t, node);
  }

  /** With no common prefix and a next sibling, add_node2 goes on with the
      next sibling. */
  lemma AddNode2Skips(t: Tree, walk: int, node: int)
    requires Pending(t, node) && 0 <= walk < |t.suffix| && walk != node
    requires Lcp(Label(t, walk), Label(t, node)) == 0 && t.nextSibling[walk] != NIL
    ensures 0 <= t.nextSibling[walk] < |t.suffix| && t.nextSibling[walk] != node
    ensures AddNode2(t, walk, node) == AddNode2(t, t.nextSibling[walk], node)
  {
    PendingIsolated(t, node);
  }

  /** When the label of `walk` is a proper prefix of the pending label and
      `walk` has no children, the stripped pending node becomes its only
      child and keeps its empty links; no other label or link changes. */
  lemma AddNode2Attaches(t: Tree, walk: int, node: int)
    requires Pending(t, node) && 0 <= walk < |t.suffix| && walk != node
    requires var offset := Lcp(Label(t, walk), Label(t, node));
      offset != 0 && offset != t.suffix[node].len && offset == t.suffix[walk].len
    requires t.firstChild[walk] == NIL
    ensures var r := AddNode2(t, walk, node);
      && Valid(r) && |r.suffix| == |t.suffix|
      && Children(r, walk) == [node]
      && Label(r, node) == Label(t, node)[t.suffix[walk].len..]
      && r.nextSibling == t.nextSibling && r.root == t.root
      && (forall j :: 0 <= j < |t.suffix| && j != node ==> r.suffix[j] == t.suffix[j])
      && (forall j :: 0 <= j < |t.suffix| && j != walk ==> r.firstChild[j] == t.firstChild[j])
  {
    PendingIsolated(t, node);
    var offset := t.suffix[walk].len;
    StripInv(t, node, offset);
    var t1 := Strip(t, node, offset);
    AttachChildInv(t1, {node}, walk, node);
    var r := AddNode2(t, walk, node);
    assert r == t1.(firstChild := t1.firstChild[walk := node]);
    assert {node} - {node} == {};
    assert Children(r, walk) == [node] + SiblingList(r, r.nextSibling[node]);
  }

  /** add_node: the first node becomes the root; later ones go through
      add_node2 from the root. */
  function AddNode(t: Tree, node: int): (r: Tree)
    requires Pending(t, node)
    ensures Shaped(r) && |t.suffix| - 1 <= |r.suffix| <= |t.suffix| + 1
  {
    PendingIsolated(t, node);
    if t.root == NIL then t.(root := node)
    else AddNode2(t, t.root, node)
  }

  /** add_node keeps the tree valid; in an empty tree the node becomes the
      root and nothing else changes, otherwise the root stays and the
      properties of add_node2 hold. */
  lemma AddNodeSpec(t: Tree, node: int)
    requires Pending(t, node)
    ensures var r := AddNode(t, node);
      && Valid(r) && r.text == t.text
      && r.root == (if t.root == NIL then node else t.root)
      && (t.root == NIL ==> r == t.(root := node))
      && (|r.suffix| < |t.suffix| ==> r == Free(t, node))
      && forall i :: 0 <= i < node ==> r.suffix[i].str == t.suffix[i].str && r.suffix[i].len <= t.suffix[i].len
  {
    PendingIsolated(t, node);
    if t.root == NIL {
      SetRootInv(t, {node}, node);
    } else {
      AddNode2Spec(t, t.root, node);
    }
  }

  /** One turn of the loop in suffix_tree_create2: allocate the node for
      suffix `k` and add it. */
  function InsertSuffix(t: Tree, k: int): (r: Tree)
    requires Valid(t) && 0 <= k < |t.text|
    ensures Shaped(r) && |t.suffix| <= |r.suffix| <= |t.suffix| + 2
  {
    var s := Span(k, |t.text| - k);
    AllocInv(t, {}, s);
    AddNode(Alloc(t, s), |t.suffix|)
  }


  /** An insertion keeps the tree valid and gains it 0, 1 or 2 nodes; when
      it gains none the node was discarded and the tree is exactly as
      before. The first suffix becomes the root with its whole text; later
      ones leave the root alone. Old labels keep their start and can only
      get shorter. */
  lemma InsertSuffixSpec(t: Tree, k: int)
    requires Valid(t) && 0 <= k < |t.text|
    ensures var r := InsertSuffix(t, k);
      && Valid(r) && r.text == t.text
      && r.root == (if t.root == NIL then |t.suffix| else t.root)
      && (t.root == NIL ==> |r.suffix| == |t.suffix| + 1 && r.suffix[|t.suffix|] == Span(k, |t.text| - k))
      && |t.suffix| <= |r.suffix| <= |t.suffix| + 2
      && (|r.suffix| == |t.suffix| ==> r == t)
      && forall i :: 0 <= i < |t.suffix| ==> r.suffix[i].str == t.suffix[i].str && r.suffix[i].len <= t.suffix[i].len
  {
    var s := Span(k, |t.text| - k);
    var n := |t.suffix|;
    AllocInv(t, {}, s);
    var t1 := Alloc(t, s);
    var r := AddNode(t1, n);
    assert r == InsertSuffix(t, k);
    AddNodeSpec(t1, n);
    if |r.suffix| == n {
      FreeAlloc(t, s);
    }
    forall i | 0 <= i < n ensures r.suffix[i].str == t.suffix[i].str && r.suffix[i].len <= t.suffix[i].len {
      assert t1.suffix[i] == t.suffix[i];
    }
  }

  /** The tree after inserting the suffixes starting at 0 .. k-1, in order:
      empty exactly when k is 0, otherwise rooted at node 0, the node of the
      whole text, which keeps its start; at most two nodes per suffix. */
  function BuildUpTo(text: seq<char>, k: int): (r: Tree)
    requires 0 <= k <= |text|
    ensures Valid(r) && r.text == text
    ensures r.root == NIL <==> k == 0
    ensures k > 0 ==> 0 < |r.suffix| && r.root == 0 && r.suffix[0].str == 0
    ensures |r.suffix| <= 2 * k
  {
    if k == 0 then Empty(text)
    else
      InsertKeeps(BuildUpTo(text, k - 1), k - 1);
      InsertSuffix(BuildUpTo(text, k - 1), k - 1)
  }

  /** The two steps of turn `k`: the fresh node is pending, and add_node
      takes it from there to the tree of the first `k + 1` suffixes. */
  lemma BuildUpToNext(text: seq<char>, k: int)
    requires 0 <= k < |text|
    ensures Pending(Alloc(BuildUpTo(text, k), Span(k, |text| - k)), |BuildUpTo(text, k).suffix|)
    ensures BuildUpTo(text, k + 1) == AddNode(Alloc(BuildUpTo(text, k), Span(k, |text| - k)), |BuildUpTo(text, k).suffix|)
  {
    AllocInv(BuildUpTo(text, k), {}, Span(k, |text| - k));
    assert {} + {|BuildUpTo(text, k).suffix|} == {|BuildUpTo(text, k).suffix|};
  }

  /** The loop invariant of suffix_tree_create2, carried over one turn. */
  lemma InsertKeeps(t: Tree, k: int)
    requires Valid(t) && 0 <= k < |t.text|
    requires t.root == NIL <==> k == 0
    requires k > 0 ==> 0 < |t.suffix| && t.root == 0 && t.suffix[0].str == 0
    requires |t.suffix| <= 2 * k
    ensures var r := InsertSuffix(t, k);
      && Valid(r) && r.text == t.text && 0 < |r.suffix| && r.root == 0 && r.suffix[0].str == 0
      && |r.suffix| <= 2 * (k + 1)
  {
    InsertSuffixSpec(t, k);
  }

  /** suffix_tree_create2 for a single string of length |text|. */
  function Build(text: seq<char>): (r: Tree)
    ensures Valid(r) && r.text == text
    ensures r.root == NIL <==> |text| == 0
  {
    BuildUpTo(text, |text|)
  }
}
