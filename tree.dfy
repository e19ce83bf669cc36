/** The node arena that stands for the heap of suffix_tree_node records.
    Node `i` has the label `suffix[i]` (a span of the text), a first-child
    link and a next-sibling link; NIL plays the part of NULL. The tree
    itself (struct suffix_tree) is just the `root` link. */
module Trees {
  import opened Spans
  import opened Links

  datatype Tree = Tree(
    text: seq<char>,         // the caller's buffer every label borrows from
    suffix: seq<Span>,       // node label
    firstChild: seq<int>,    // head of the node's child list, or NIL
    nextSibling: seq<int>,   // next node in the same list, or NIL
    root: int)               // head of the top-level list, or NIL

  /** The per-node sequences agree in length. */
  predicate Shaped(t: Tree) {
    |t.firstChild| == |t.suffix| && |t.nextSibling| == |t.suffix|
  }

  /** Every label is non-empty and lies inside the text. */
  predicate LabelsInText(text: seq<char>, suffix: seq<Span>) {
    forall i :: 0 <= i < |suffix| ==> InText(text, suffix[i]) && suffix[i].len > 0
  }

  /** The arena, with the nodes in `spare` allocated but not linked in yet. */
  ghost predicate Inv(t: Tree, spare: set<int>) {
    && |t.firstChild| == |t.suffix|
    && LabelsInText(t.text, t.suffix)
    && Forest(t.firstChild, t.nextSibling, t.root, spare)
  }

  /** A complete tree: every node is the root or linked exactly once. */
  ghost predicate Valid(t: Tree) {
    Inv(t, {})
  }

  /** Node `n`, the most recently allocated one, waits to be linked in. */
  ghost predicate Pending(t: Tree, n: int) {
    Inv(t, {n}) && n == |t.suffix| - 1
  }

  /** What a read-only walk over the arena needs. */
  ghost predicate WellFormed(t: Tree) {
    && |t.firstChild| == |t.suffix|
    && LabelsInText(t.text, t.suffix)
    && InBounds(t.firstChild, t.nextSibling, t.root)
    && Acyclic(t.firstChild, t.nextSibling)
  }

  lemma InvWellFormed(t: Tree, spare: set<int>)
    requires Inv(t, spare)
    ensures WellFormed(t) && Shaped(t)
  {
  }

  /** The pending node is unlinked, has no links and is not the root. */
  lemma PendingIsolated(t: Tree, n: int)
    requires Pending(t, n)
    ensures 0 <= n < |t.suffix| && n != t.root && WellFormed(t) && Shaped(t)
    ensures t.firstChild[n] == NIL && t.nextSibling[n] == NIL
    ensures forall j :: 0 <= j < |t.suffix| ==> t.firstChild[j] != n && t.nextSibling[j] != n
  {
    assert n in {n};
  }

  /** A tree with a linked node has a root. */
  lemma Rooted(t: Tree, spare: set<int>, w: int)
    requires Inv(t, spare) && 0 <= w < |t.suffix| && w !in spare
    ensures t.root != NIL
  {
  }

  /** The bytes on the edge into node `i`. */
  function Label(t: Tree, i: int): (b: seq<char>)
    requires LabelsInText(t.text, t.suffix) && 0 <= i < |t.suffix|
    ensures |b| == t.suffix[i].len > 0
  {
    Bytes(t.text, t.suffix[i])
  }

  /** The rank of node `i`: it drops along every link. */
  ghost function RankOf(t: Tree, i: int): nat
    requires WellFormed(t) && 0 <= i < |t.suffix|
  {
    Rank(t.firstChild, t.nextSibling)[i]
  }

  /** The links of node `i` lead to nodes of smaller rank. */
  lemma RankDrops(t: Tree, i: int)
    requires WellFormed(t) && 0 <= i < |t.suffix|
    ensures t.firstChild[i] != NIL ==> 0 <= t.firstChild[i] < |t.suffix| && RankOf(t, t.firstChild[i]) < RankOf(t, i)
    ensures t.nextSibling[i] != NIL ==> 0 <= t.nextSibling[i] < |t.suffix| && RankOf(t, t.nextSibling[i]) < RankOf(t, i)
  {
    assert RankedAt(t.firstChild, t.nextSibling, Rank(t.firstChild, t.nextSibling), i);
  }

  /** The nodes met by following next-sibling links from `x`: one list of
      children, or the top level when `x` is the root. */
  ghost function SiblingList(t: Tree, x: int): (l: seq<int>)
    requires WellFormed(t) && InRange(x, |t.suffix|)
    ensures forall i :: 0 <= i < |l| ==> 0 <= l[i] < |t.suffix|
    decreases if x == NIL then 0 else RankOf(t, x) + 1
  {
    if x == NIL then []
    else
      RankDrops(t, x);
      [x] + SiblingList(t, t.nextSibling[x])
  }

  /** The children of node `p`, in list order. */
  ghost function Children(t: Tree, p: int): seq<int>
    requires WellFormed(t) && 0 <= p < |t.suffix|
  {
    SiblingList(t, t.firstChild[p])
  }

  /** A node nothing links to is on no list that does not start with it. */
  lemma {:induction false} UnlinkedNotListed(t: Tree, x: int, c: int)
    requires WellFormed(t) && InRange(x, |t.suffix|) && x != c
    requires forall j :: 0 <= j < |t.suffix| ==> t.nextSibling[j] != c
    ensures c !in SiblingList(t, x)
    decreases if x == NIL then 0 else RankOf(t, x) + 1
  {
    if x != NIL {
      RankDrops(t, x);
      UnlinkedNotListed(t, t.nextSibling[x], c);
    }
  }

  /** A list whose nodes keep their sibling links is the same list. */
  lemma {:induction false} SiblingListFrame(t: Tree, t': Tree, x: int)
    requires WellFormed(t) && WellFormed(t') && |t.suffix| <= |t'.suffix| && InRange(x, |t.suffix|)
    requires forall e :: e in SiblingList(t, x) ==> t'.nextSibling[e] == t.nextSibling[e]
    ensures SiblingList(t', x) == SiblingList(t, x)
    decreases if x == NIL then 0 else RankOf(t, x) + 1
  {
    if x != NIL {
      RankDrops(t, x);
      assert x in SiblingList(t, x);
      assert forall e :: e in SiblingList(t, t.nextSibling[x]) ==> e in SiblingList(t, x);
      SiblingListFrame(t, t', t.nextSibling[x]);
    }
  }

  /** Allocating a node changes no list. */
  lemma SiblingListAppend(t: Tree, t': Tree, x: int)
    requires WellFormed(t) && WellFormed(t') && |t'.suffix| == |t.suffix| + 1
    requires t'.nextSibling == t.nextSibling + [NIL] && InRange(x, |t.suffix|)
    ensures SiblingList(t', x) == SiblingList(t, x)
  {
    forall e | e in SiblingList(t, x) ensures t'.nextSibling[e] == t.nextSibling[e] {
      var l := SiblingList(t, x);
      var i :| 0 <= i < |l| && l[i] == e;
    }
    SiblingListFrame(t, t', x);
  }

  /** suffix_tree_create2 before the first suffix: no nodes and no root. */
  function Empty(text: seq<char>): (t: Tree)
    ensures Valid(t) && t.root == NIL && |t.suffix| == 0 && t.text == text
  {
    assert RankedBy([], [], []);
    Tree(text, [], [], [], NIL)
  }

  /** new_suffix_tree_node: a fresh node, with label `s` and no links, at the
      end of the arena. Allocation never fails in this model. */
  function Alloc(t: Tree, s: Span): (r: Tree)
    ensures |r.suffix| == |t.suffix| + 1 && r.suffix[|t.suffix|] == s
    ensures r.text == t.text && r.root == t.root
    ensures Shaped(t) ==> Shaped(r) && r.firstChild[|t.suffix|] == NIL && r.nextSibling[|t.suffix|] == NIL
  {
    t.(suffix := t.suffix + [s], firstChild := t.firstChild + [NIL], nextSibling := t.nextSibling + [NIL])
  }

  /** Releasing the most recently allocated node, which nothing links to. */
  function Free(t: Tree, n: int): (r: Tree)
    requires Shaped(t) && 0 <= n == |t.suffix| - 1
    ensures Shaped(r) && |r.suffix| == n && r.text == t.text && r.root == t.root
    ensures forall j :: 0 <= j < n ==>
      r.suffix[j] == t.suffix[j] && r.firstChild[j] == t.firstChild[j] && r.nextSibling[j] == t.nextSibling[j]
  {
    t.(suffix := t.suffix[..n], firstChild := t.firstChild[..n], nextSibling := t.nextSibling[..n])
  }

  /** A new label for node `i`. */
  function Relabel(t: Tree, i: int, s: Span): (r: Tree)
    requires 0 <= i < |t.suffix|
    ensures |r.suffix| == |t.suffix| && r.suffix[i] == s
    ensures r.firstChild == t.firstChild && r.nextSibling == t.nextSibling && r.root == t.root && r.text == t.text
    ensures forall j :: 0 <= j < |t.suffix| && j != i ==> r.suffix[j] == t.suffix[j]
  {
    t.(suffix := t.suffix[i := s])
  }

  /** A fresh node with a label inside the text joins the spare nodes. */
  lemma AllocInv(t: Tree, spare: set<int>, s: Span)
    requires Inv(t, spare) && InText(t.text, s) && s.len > 0
    ensures Inv(Alloc(t, s), spare + {|t.suffix|})
  {
    AppendForest(t.firstChild, t.nextSibling, t.root, spare);
  }

  /** Allocating and then releasing a node gives back the same arena. */
  lemma FreeAlloc(t: Tree, s: Span)
    requires Shaped(t)
    ensures Free(Alloc(t, s), |t.suffix|) == t
  {
    var t' := Alloc(t, s);
    assert t'.suffix[..|t.suffix|] == t.suffix;
    assert t'.firstChild[..|t.suffix|] == t.firstChild;
    assert t'.nextSibling[..|t.suffix|] == t.nextSibling;
  }

  /** Allocation keeps every existing node's label and links. */
  lemma AllocKeeps(t: Tree, s: Span)
    requires Shaped(t)
    ensures forall j :: 0 <= j < |t.suffix| ==>
      Alloc(t, s).suffix[j] == t.suffix[j] && Alloc(t, s).firstChild[j] == t.firstChild[j]
      && Alloc(t, s).nextSibling[j] == t.nextSibling[j]
  {
  }

  /** Releasing a last node that has no links and allocating its label
      again gives back the same arena. */
  lemma AllocFree(t: Tree, n: int)
    requires Shaped(t) && 0 <= n == |t.suffix| - 1
    requires t.firstChild[n] == NIL && t.nextSibling[n] == NIL
    ensures Alloc(Free(t, n), t.suffix[n]) == t
  {
    assert t.suffix == t.suffix[..n] + [t.suffix[n]];
    assert t.firstChild == t.firstChild[..n] + [NIL];
    assert t.nextSibling == t.nextSibling[..n] + [NIL];
  }

  /** Releasing the last, spare node keeps the invariant for the others. */
  lemma FreeInv(t: Tree, spare: set<int>, n: int)
    requires Inv(t, spare) && n in spare && n == |t.suffix| - 1
    ensures Inv(Free(t, n), spare - {n})
  {
    TruncateForest(t.firstChild, t.nextSibling, t.root, spare, n);
  }

  /** A label inside the text may replace any other. */
  lemma RelabelInv(t: Tree, spare: set<int>, i: int, s: Span)
    requires Inv(t, spare) && 0 <= i < |t.suffix| && InText(t.text, s) && s.len > 0
    ensures Inv(Relabel(t, i, s), spare)
  {
  }

  /** The spare node `n` fills the empty next-sibling slot of `w`. */
  lemma AttachSiblingInv(t: Tree, spare: set<int>, w: int, n: int)
    requires Inv(t, spare) && n in spare
    requires 0 <= w < |t.suffix| && w !in spare && t.root != NIL && t.nextSibling[w] == NIL
    ensures Inv(t.(nextSibling := t.nextSibling[w := n]), spare - {n})
  {
    AttachForest(t.firstChild, t.nextSibling, t.root, spare, w, n);
  }

  /** The spare node `n` fills the empty first-child slot of `w`. */
  lemma AttachChildInv(t: Tree, spare: set<int>, w: int, n: int)
    requires Inv(t, spare) && n in spare
    requires 0 <= w < |t.suffix| && w !in spare && t.root != NIL && t.firstChild[w] == NIL
    ensures Inv(t.(firstChild := t.firstChild[w := n]), spare - {n})
  {
    AttachChildForest(t.firstChild, t.nextSibling, t.root, spare, w, n);
  }

  /** The spare node `c` goes in front of the child list of `p`. */
  lemma PushChildInv(t: Tree, spare: set<int>, p: int, c: int)
    requires Inv(t, spare) && c in spare
    requires 0 <= p < |t.suffix| && p !in spare && t.root != NIL
    ensures Inv(t.(firstChild := t.firstChild[p := c], nextSibling := t.nextSibling[c := t.firstChild[p]]), spare - {c})
  {
    PushChildForest(t.firstChild, t.nextSibling, t.root, spare, p, c);
  }

  /** In an empty tree the spare node `n` becomes the root. */
  lemma SetRootInv(t: Tree, spare: set<int>, n: int)
    requires Inv(t, spare) && n in spare && t.root == NIL
    ensures Inv(t.(root := n), spare - {n})
  {
    SetRootForest(t.firstChild, t.nextSibling, spare, n);
  }
}
