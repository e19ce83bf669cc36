/** The guarantee one insertion step gives: straight after the suffix
    starting at `k` is added, search finds it, and at position `k` unless the
    step discarded the node because the suffix was already spelled out. */
module Findable {
  import opened Spans
  import opened Links
  import opened Trees
  import opened Insertion
  import opened Searching

  /** Node `i` has the same label and links in `t` and `r`. */
  predicate Same(t: Tree, r: Tree, i: int)
    requires Shaped(t) && Shaped(r) && 0 <= i < |t.suffix| && i < |r.suffix|
  {
    r.suffix[i] == t.suffix[i] && r.firstChild[i] == t.firstChild[i] && r.nextSibling[i] == t.nextSibling[i]
  }

  /** add_node2 from `walk` changes no node of higher rank than `walk`:
      the nodes before it on its list and above it keep their label and
      links. */
  lemma {:induction false} AddNode2Frame(t: Tree, walk: int, node: int)
    requires Pending(t, node) && 0 <= walk < |t.suffix| && walk != node
    ensures AddNode2(t, walk, node).text == t.text
    ensures forall i :: 0 <= i < node && RankOf(t, i) > RankOf(t, walk) ==> Same(t, AddNode2(t, walk, node), i)
    decreases RankOf(t, walk)
  {
    PendingIsolated(t, node);
    RankDrops(t, walk);
    var r := AddNode2(t, walk, node);
    var offset := Lcp(Label(t, walk), Label(t, node));
    if offset == 0 && t.nextSibling[walk] != NIL {
      assert r == AddNode2(t, t.nextSibling[walk], node);
      AddNode2Frame(t, t.nextSibling[walk], node);
    } else if offset != 0 && offset != t.suffix[node].len && offset == t.suffix[walk].len && t.firstChild[walk] != NIL {
      StripInv(t, node, offset);
      var t1 := Strip(t, node, offset);
      assert r == AddNode2(t1, t.firstChild[walk], node);
      AddNode2Frame(t1, t.firstChild[walk], node);
      forall i | 0 <= i < node && RankOf(t, i) > RankOf(t, walk) ensures Same(t, r, i) {
        assert RankOf(t1, i) == RankOf(t, i) && Same(t1, r, i);
      }
    } else {
      AddNode2FrameStep(t, walk, node);
    }
  }

  /** AddNode2Frame at one node. */
  lemma AddNode2FrameAt(t: Tree, walk: int, node: int, i: int)
    requires Pending(t, node) && 0 <= walk < |t.suffix| && walk != node
    requires 0 <= i < node && RankOf(t, i) > RankOf(t, walk)
    ensures |AddNode2(t, walk, node).suffix| >= node && AddNode2(t, walk, node).text == t.text
    ensures Same(t, AddNode2(t, walk, node), i)
  {
    AddNode2Frame(t, walk, node);
  }

  /** The cases of add_node2 that do not recurse touch only `walk`, the
      pending node and a new node. */
  lemma AddNode2FrameStep(t: Tree, walk: int, node: int)
    requires Pending(t, node) && 0 <= walk < |t.suffix| && walk != node
    requires var offset := Lcp(Label(t, walk), Label(t, node));
      !(offset == 0 && t.nextSibling[walk] != NIL)
      && !(offset != 0 && offset != t.suffix[node].len && offset == t.suffix[walk].len && t.firstChild[walk] != NIL)
    ensures AddNode2(t, walk, node).text == t.text
    ensures forall i :: 0 <= i < node && i != walk ==> Same(t, AddNode2(t, walk, node), i)
  {
    PendingIsolated(t, node);
    var r := AddNode2(t, walk, node);
  }

  /** Labels that start with different bytes never match. */
  lemma FirstByteSkips(t: Tree, node: int, pattern: seq<char>, consumed: int)
    requires WellFormed(t) && 0 <= node < |t.suffix| && |pattern| > 0
    requires Label(t, node)[0] != pattern[0]
    ensures InRange(t.nextSibling[node], |t.suffix|)
    ensures SearchFrom(t, node, pattern, consumed) == SearchFrom(t, t.nextSibling[node], pattern, consumed)
  {
    var n := t.suffix[node].len;
    if |pattern| <= n {
      assert Label(t, node)[..|pattern|][0] != pattern[0];
    } else {
      assert pattern[..n][0] == pattern[0];
    }
    SearchSkips(t, node, pattern, consumed);
  }

  /** Straight after add_node2, search from `walk` for the label the pending
      node had finds something; when the node stayed in the tree it finds
      the node's start minus `consumed`. */
  lemma {:induction false} AddNode2Finds(t: Tree, walk: int, node: int, consumed: int)
    requires Pending(t, node) && 0 <= walk < |t.suffix| && walk != node
    ensures WellFormed(AddNode2(t, walk, node))
    ensures SearchFrom(AddNode2(t, walk, node), walk, Label(t, node), consumed).Some?
    ensures |AddNode2(t, walk, node).suffix| >= |t.suffix| ==>
      SearchFrom(AddNode2(t, walk, node), walk, Label(t, node), consumed).value == t.suffix[node].str - consumed
    decreases RankOf(t, walk), 4
  {
    PendingIsolated(t, node);
    RankDrops(t, walk);
    AddNode2Spec(t, walk, node);
    var r := AddNode2(t, walk, node);
    InvWellFormed(r, {});
    var w, l := Label(t, walk), Label(t, node);
    var offset := Lcp(w, l);
    if offset == 0 {
      var next := t.nextSibling[walk];
      if next == NIL {
        assert r == t.(nextSibling := t.nextSibling[walk := node]);
        FirstByteSkips(r, walk, l, consumed);
        SearchHits(r, node, l, consumed);
      } else {
        assert r == AddNode2(t, next, node);
        AddNode2Finds(t, next, node, consumed);
        AddNode2Frame(t, next, node);
        assert Same(t, r, walk);
        FirstByteSkips(r, walk, l, consumed);
      }
    } else if offset == |l| {
      assert r == Free(t, node);
      assert Label(r, walk) == w;
      SearchHits(r, walk, l, consumed);
    } else if offset == |w| {
      AddNode2FindsBelow(t, walk, node, consumed);
    } else {
      AddNode2FindsSplit(t, walk, node, consumed);
    }
  }

  /** The strip-and-descend case of AddNode2Finds. */
  lemma {:induction false} AddNode2FindsBelow(t: Tree, walk: int, node: int, consumed: int)
    requires Pending(t, node) && 0 <= walk < |t.suffix| && walk != node
    requires var offset := Lcp(Label(t, walk), Label(t, node));
      offset != 0 && offset != t.suffix[node].len && offset == t.suffix[walk].len
    ensures WellFormed(AddNode2(t, walk, node))
    ensures var r := AddNode2(t, walk, node); var hit := SearchFrom(r, walk, Label(t, node), consumed);
      && hit.Some?
      && (|r.suffix| >= |t.suffix| ==> hit.value == t.suffix[node].str - consumed)
    decreases RankOf(t, walk), 3
  {
    PendingIsolated(t, node);
    if t.firstChild[walk] == NIL {
      AddNode2FindsAttached(t, walk, node, consumed);
    } else {
      AddNode2FindsDeeper(t, walk, node, consumed);
    }
  }

  /** The pending node, stripped, becomes the only child of `walk`. */
  lemma AddNode2FindsAttached(t: Tree, walk: int, node: int, consumed: int)
    requires Pending(t, node) && 0 <= walk < |t.suffix| && walk != node
    requires var offset := Lcp(Label(t, walk), Label(t, node));
      offset != 0 && offset != t.suffix[node].len && offset == t.suffix[walk].len
    requires t.firstChild[walk] == NIL
    ensures WellFormed(AddNode2(t, walk, node))
    ensures SearchFrom(AddNode2(t, walk, node), walk, Label(t, node), consumed) == Some(t.suffix[node].str - consumed)
  {
    PendingIsolated(t, node);
    var w, l := Label(t, walk), Label(t, node);
    var offset := |w|;
    StripInv(t, node, offset);
    var t1 := Strip(t, node, offset);
    var r := t1.(firstChild := t1.firstChild[walk := node]);
    assert r == AddNode2(t, walk, node);
    Rooted(t1, {node}, walk);
    AttachChildInv(t1, {node}, walk, node);
    InvWellFormed(r, {});
    assert Label(r, walk) == w == l[..offset];
    assert Label(r, node) == l[offset..];
    AttachedFound(r, walk, node, l, consumed, offset);
  }

  /** Search in the tree where the stripped pending node is the only child
      of `walk`: through the label of `walk` to the node. */
  lemma AttachedFound(r: Tree, walk: int, node: int, l: seq<char>, consumed: int, offset: int)
    requires WellFormed(r) && 0 <= walk < |r.suffix| && 0 <= node < |r.suffix| && r.firstChild[walk] == node
    requires r.suffix[walk].len == offset < |l| && Label(r, walk) == l[..offset]
    requires Label(r, node) == l[offset..]
    ensures SearchFrom(r, walk, l, consumed) == Some(r.suffix[node].str - offset - consumed)
  {
    SearchDescends(r, walk, l, consumed);
    SearchHits(r, node, l[offset..], consumed + offset);
  }

  /** The pending node, stripped, goes on down the child list of `walk`. */
  lemma {:induction false} AddNode2FindsDeeper(t: Tree, walk: int, node: int, consumed: int)
    requires Pending(t, node) && 0 <= walk < |t.suffix| && walk != node
    requires var offset := Lcp(Label(t, walk), Label(t, node));
      offset != 0 && offset != t.suffix[node].len && offset == t.suffix[walk].len
    requires t.firstChild[walk] != NIL
    ensures WellFormed(AddNode2(t, walk, node))
    ensures SearchFrom(AddNode2(t, walk, node), walk, Label(t, node), consumed).Some?
    ensures |AddNode2(t, walk, node).suffix| >= |t.suffix| ==>
      SearchFrom(AddNode2(t, walk, node), walk, Label(t, node), consumed).value == t.suffix[node].str - consumed
    decreases RankOf(t, walk), 2
  {
    PendingIsolated(t, node);
    var w, l := Label(t, walk), Label(t, node);
    var offset := |w|;
    AddNode2Descends(t, walk, node);
    var t1 := Strip(t, node, offset);
    StripInv(t, node, offset);
    assert t1.suffix[walk] == t.suffix[walk] && t1.suffix[node].str == t.suffix[node].str + offset;
    assert RankOf(t1, walk) == RankOf(t, walk);
    assert Label(t1, walk) == w;
    assert w == w[..offset] == l[..offset];
    assert Label(t1, node) == l[offset..];
    StrippedFinds(t1, walk, node, l, consumed, offset);
  }

  /** The search of SearchFrom under a name that is not recursive: the
      lemmas below state what a search finds through it, so that proving
      such a statement does not unfold the walk a second time. */
  function Find(t: Tree, node: int, pattern: seq<char>, consumed: int): Option<int>
    requires WellFormed(t) && InRange(node, |t.suffix|) && |pattern| > 0
  {
    SearchFrom(t, node, pattern, consumed)
  }

  /** AddNode2FindsDeeper once the pending node has been stripped to `t1`:
      search for the full pending label `l` from `walk` matches the label
      of `walk` and then finds the stripped node below it. */
  lemma {:induction false} StrippedFinds(t1: Tree, walk: int, node: int, l: seq<char>, consumed: int, offset: int)
    requires Pending(t1, node) && 0 <= walk < |t1.suffix| && walk != node && t1.firstChild[walk] != NIL
    requires t1.suffix[walk].len == offset < |l|
    requires Label(t1, walk) == l[..offset] && Label(t1, node) == l[offset..]
    ensures WellFormed(AddNode2(t1, t1.firstChild[walk], node))
    ensures Find(AddNode2(t1, t1.firstChild[walk], node), walk, l, consumed).Some?
    ensures |AddNode2(t1, t1.firstChild[walk], node).suffix| >= |t1.suffix| ==>
      Find(AddNode2(t1, t1.firstChild[walk], node), walk, l, consumed).value == t1.suffix[node].str - offset - consumed
    decreases RankOf(t1, walk), 1
  {
    StrippedBelow(t1, walk, node, consumed + offset);
    BelowFound(t1, AddNode2(t1, t1.firstChild[walk], node), walk, node, l, consumed, offset,
      |AddNode2(t1, t1.firstChild[walk], node).suffix| >= |t1.suffix|);
  }

  /** In a tree `r` where `walk` has the label and first child it has in
      `t1`, search for `l` from `walk` finds what search for the rest of
      `l` finds from that child (`kept` says whether the latter is known to
      be the start of the stripped node). */
  lemma BelowFound(t1: Tree, r: Tree, walk: int, node: int, l: seq<char>, consumed: int, offset: int, kept: bool)
    requires Shaped(t1) && LabelsInText(t1.text, t1.suffix) && 0 <= walk < |t1.suffix| && 0 <= node < |t1.suffix|
    requires WellFormed(r) && walk < |r.suffix| && r.text == t1.text
    requires r.suffix[walk] == t1.suffix[walk] && r.firstChild[walk] == t1.firstChild[walk]
    requires InRange(t1.firstChild[walk], |r.suffix|)
    requires t1.suffix[walk].len == offset < |l| && Label(t1, walk) == l[..offset] && Label(t1, node) == l[offset..]
    requires Find(r, t1.firstChild[walk], Label(t1, node), consumed + offset).Some?
    requires kept ==> Find(r, t1.firstChild[walk], Label(t1, node), consumed + offset).value == t1.suffix[node].str - (consumed + offset)
    ensures Find(r, walk, l, consumed).Some?
    ensures kept ==> Find(r, walk, l, consumed).value == t1.suffix[node].str - offset - consumed
  {
    assert Label(r, walk) == Label(t1, walk);
    SearchDescends(r, walk, l, consumed);
  }

  /** What StrippedFinds needs of add_node2 in the child list of `walk`:
      the induction hypothesis there, and `walk` left as it was. */
  lemma {:induction false} StrippedBelow(t1: Tree, walk: int, node: int, consumed: int)
    requires Pending(t1, node) && 0 <= walk < |t1.suffix| && walk != node && t1.firstChild[walk] != NIL
    ensures WellFormed(AddNode2(t1, t1.firstChild[walk], node)) && Shaped(AddNode2(t1, t1.firstChild[walk], node))
    ensures Shaped(t1) && LabelsInText(t1.text, t1.suffix) && walk < |AddNode2(t1, t1.firstChild[walk], node).suffix|
    ensures Same(t1, AddNode2(t1, t1.firstChild[walk], node), walk) && AddNode2(t1, t1.firstChild[walk], node).text == t1.text
    ensures InRange(t1.firstChild[walk], |AddNode2(t1, t1.firstChild[walk], node).suffix|)
    ensures Find(AddNode2(t1, t1.firstChild[walk], node), t1.firstChild[walk], Label(t1, node), consumed).Some?
    ensures |AddNode2(t1, t1.firstChild[walk], node).suffix| >= |t1.suffix| ==>
      Find(AddNode2(t1, t1.firstChild[walk], node), t1.firstChild[walk], Label(t1, node), consumed).value
        == t1.suffix[node].str - consumed
    decreases RankOf(t1, walk), 0
  {
    PendingIsolated(t1, node);
    RankDrops(t1, walk);
    var child := t1.firstChild[walk];
    AddNode2Finds(t1, child, node, consumed);
    AddNode2FrameAt(t1, child, node, walk);
  }

  /** The split case of AddNode2Finds: below the cut label the tail does not
      match and the stripped node, next on the list, does. */
  lemma AddNode2FindsSplit(t: Tree, walk: int, node: int, consumed: int)
    requires Pending(t, node) && 0 <= walk < |t.suffix| && walk != node
    requires var offset := Lcp(Label(t, walk), Label(t, node));
      offset != 0 && offset != t.suffix[node].len && offset != t.suffix[walk].len
    ensures WellFormed(AddNode2(t, walk, node))
    ensures |AddNode2(t, walk, node).suffix| == |t.suffix| + 1
    ensures SearchFrom(AddNode2(t, walk, node), walk, Label(t, node), consumed) == Some(t.suffix[node].str - consumed)
  {
    PendingIsolated(t, node);
    var offset := Lcp(Label(t, walk), Label(t, node));
    assert AddNode2(t, walk, node) == SplitNode(t, walk, node, offset);
    SplitFinds(t, walk, node, consumed, offset);
  }

  /** split_node at the first mismatch: the search goes through the cut
      label of `walk`, skips the tail and finds the stripped pending node. */
  lemma SplitFinds(t: Tree, walk: int, node: int, consumed: int, offset: int)
    requires Pending(t, node) && 0 <= walk < |t.suffix| && walk != node
    requires offset == Lcp(Label(t, walk), Label(t, node))
    requires offset != 0 && offset != t.suffix[node].len && offset != t.suffix[walk].len
    ensures WellFormed(SplitNode(t, walk, node, offset))
    ensures |SplitNode(t, walk, node, offset).suffix| == |t.suffix| + 1
    ensures SearchFrom(SplitNode(t, walk, node, offset), walk, Label(t, node), consumed) == Some(t.suffix[node].str - consumed)
  {
    PendingIsolated(t, node);
    var w, l := Label(t, walk), Label(t, node);
    SplitNodeSpec(t, walk, node, offset);
    var r := SplitNode(t, walk, node, offset);
    InvWellFormed(r, {});
    var tail := |t.suffix|;
    assert Label(r, walk) == w[..offset] == l[..offset];
    assert Label(r, tail) == w[offset..];
    assert Label(r, node) == l[offset..];
    SplitFound(r, walk, tail, node, l, consumed, offset);
  }

  /** Search in the tree split_node leaves: through the cut label of
      `walk`, past the tail, whose first byte differs, to the stripped
      pending node. */
  lemma SplitFound(r: Tree, walk: int, tail: int, node: int, l: seq<char>, consumed: int, offset: int)
    requires WellFormed(r) && 0 <= walk < |r.suffix| && 0 <= tail < |r.suffix| && 0 <= node < |r.suffix|
    requires r.firstChild[walk] == tail && r.nextSibling[tail] == node
    requires r.suffix[walk].len == offset < |l| && Label(r, walk) == l[..offset]
    requires r.suffix[tail].len > 0 && Label(r, tail)[0] != l[offset]
    requires Label(r, node) == l[offset..]
    ensures SearchFrom(r, walk, l, consumed) == Some(r.suffix[node].str - offset - consumed)
  {
    SearchDescends(r, walk, l, consumed);
    FirstByteSkips(r, tail, l[offset..], consumed + offset);
    SearchHits(r, node, l[offset..], consumed + offset);
  }

  /** add_node, from the root: search from the root for the pending
      label finds it, at the node's start when the node stays. */
  lemma AddNodeFinds(t: Tree, node: int)
    requires Pending(t, node)
    ensures WellFormed(AddNode(t, node))
    ensures Search(AddNode(t, node), Label(t, node)).Some?
    ensures |AddNode(t, node).suffix| >= |t.suffix| ==> Search(AddNode(t, node), Label(t, node)) == Some(t.suffix[node].str)
  {
    PendingIsolated(t, node);
    AddNodeSpec(t, node);
    InvWellFormed(AddNode(t, node), {});
    if t.root == NIL {
      SearchHits(t.(root := node), node, Label(t, node), 0);
    } else {
      AddNode2Finds(t, t.root, node, 0);
    }
  }

  /** One turn of the construction loop: right after suffix `k` is
      inserted, suffix_tree_search finds it, at position `k` whenever the
      turn kept its node (a discarded node means the tree is unchanged and
      already spelled the suffix). */
  lemma InsertFinds(t: Tree, k: int)
    requires Valid(t) && 0 <= k < |t.text|
    ensures WellFormed(InsertSuffix(t, k))
    ensures Search(InsertSuffix(t, k), t.text[k..]).Some?
    ensures |InsertSuffix(t, k).suffix| > |t.suffix| ==> Search(InsertSuffix(t, k), t.text[k..]) == Some(k)
  {
    var s := Span(k, |t.text| - k);
    var n := |t.suffix|;
    AllocInv(t, {}, s);
    var t1 := Alloc(t, s);
    assert t1.suffix[n] == s && t1.text == t.text && |t1.suffix| == n + 1;
    assert Label(t1, n) == t.text[k..];
    AddNodeFinds(t1, n);
    assert InsertSuffix(t, k) == AddNode(t1, n);
  }
}
