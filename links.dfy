/** The shape of the node links, separate from the labels: node `i` has a
    first-child link `child[i]` and a next-sibling link `sibling[i]`, each NIL
    (NULL) or a node index. Every predicate here treats the two kinds of link
    alike, so a fact about one kind carries over to the other (LinksSwap). */
module Links {

  const NIL := -1

  predicate InRange(x: int, n: int) {
    x == NIL || 0 <= x < n
  }

  /** The two link arrays cover the same nodes and every link is NIL or a node. */
  ghost predicate InBounds(child: seq<int>, sibling: seq<int>, root: int) {
    && |child| == |sibling|
    && InRange(root, |child|)
    && forall i :: 0 <= i < |child| ==> InRange(child[i], |child|) && InRange(sibling[i], |child|)
  }

  /** `r` strictly decreases along both links of node `i`. */
  ghost predicate RankedAt(child: seq<int>, sibling: seq<int>, r: seq<nat>, i: int)
    requires 0 <= i < |r| && |child| == |r| && |sibling| == |r|
  {
    && (0 <= child[i] < |r| ==> r[child[i]] < r[i])
    && (0 <= sibling[i] < |r| ==> r[sibling[i]] < r[i])
  }

  /** `r` strictly decreases along every link. */
  ghost predicate RankedBy(child: seq<int>, sibling: seq<int>, r: seq<nat>) {
    && |child| == |r|
    && |sibling| == |r|
    && forall i :: 0 <= i < |r| ==> RankedAt(child, sibling, r, i)
  }

  /** No chain of links comes back to where it started. */
  ghost predicate Acyclic(child: seq<int>, sibling: seq<int>) {
    exists r :: RankedBy(child, sibling, r)
  }

  /** A ranking of the links. Any walk along them terminates by it. */
  ghost function Rank(child: seq<int>, sibling: seq<int>): (r: seq<nat>)
    requires Acyclic(child, sibling)
    ensures RankedBy(child, sibling, r)
  {
    var r :| RankedBy(child, sibling, r); r
  }

  /** No node is the target of two links. */
  ghost predicate Injective(child: seq<int>, sibling: seq<int>)
    requires |child| == |sibling|
  {
    && (forall i, j | 0 <= i < |child| && 0 <= j < |child| && child[i] != NIL ::
          child[i] == child[j] ==> i == j)
    && (forall i, j | 0 <= i < |child| && 0 <= j < |child| && sibling[i] != NIL ::
          sibling[i] == sibling[j] ==> i == j)
    && (forall i, j | 0 <= i < |child| && 0 <= j < |child| && child[i] != NIL ::
          child[i] != sibling[j])
  }

  /** No link points at `x`. */
  ghost predicate Unlinked(child: seq<int>, sibling: seq<int>, x: int)
    requires |child| == |sibling|
  {
    forall j :: 0 <= j < |child| ==> child[j] != x && sibling[j] != x
  }

  /** Some link points at `i`. */
  ghost predicate Owned(child: seq<int>, sibling: seq<int>, i: int)
    requires |child| == |sibling|
  {
    exists j :: 0 <= j < |child| && (child[j] == i || sibling[j] == i)
  }

  /** The nodes in `spare` are allocated but isolated: nothing points at
      them, they point at nothing, and none is the root. */
  ghost predicate Isolated(child: seq<int>, sibling: seq<int>, root: int, spare: set<int>)
    requires |child| == |sibling|
  {
    forall x :: x in spare ==>
      && 0 <= x < |child| && x != root && Unlinked(child, sibling, x)
      && child[x] == NIL && sibling[x] == NIL
  }

  /** Every node except the root and the spare ones is the target of a link. */
  ghost predicate Covered(child: seq<int>, sibling: seq<int>, root: int, spare: set<int>)
    requires |child| == |sibling|
  {
    forall i :: 0 <= i < |child| && i != root && i !in spare ==> Owned(child, sibling, i)
  }

  /** Single ownership: apart from the spare nodes, every node is the root or
      the target of exactly one link, and there are no cycles. With an empty
      `spare` this is what a recursive release visiting each node once needs. */
  ghost predicate Forest(child: seq<int>, sibling: seq<int>, root: int, spare: set<int>) {
    && InBounds(child, sibling, root)
    && Acyclic(child, sibling)
    && Injective(child, sibling)
    && (root != NIL ==> Unlinked(child, sibling, root))
    && Isolated(child, sibling, root, spare)
    && Covered(child, sibling, root, spare)
    && (root == NIL ==> forall i :: 0 <= i < |child| ==> i in spare)
  }

  /** The two kinds of link play symmetric parts. */
  lemma LinksSwap(child: seq<int>, sibling: seq<int>, root: int, spare: set<int>)
    requires Forest(child, sibling, root, spare)
    ensures Forest(sibling, child, root, spare)
  {
    var r := Rank(child, sibling);
    forall i | 0 <= i < |r| ensures RankedAt(sibling, child, r, i) {
      assert RankedAt(child, sibling, r, i);
    }
    assert RankedBy(sibling, child, r);
    forall i | 0 <= i < |child| && i != root && i !in spare ensures Owned(sibling, child, i) {
      assert Owned(child, sibling, i);
    }
  }

  /** new_suffix_tree_node: one more node, with no links. */
  lemma AppendForest(child: seq<int>, sibling: seq<int>, root: int, spare: set<int>)
    requires Forest(child, sibling, root, spare)
    ensures Forest(child + [NIL], sibling + [NIL], root, spare + {|child|})
  {
    AppendAcyclic(child, sibling);
    AppendInjective(child, sibling);
    AppendOwnership(child, sibling, root, spare);
  }

  lemma AppendAcyclic(child: seq<int>, sibling: seq<int>)
    requires InBounds(child, sibling, NIL) && Acyclic(child, sibling)
    ensures Acyclic(child + [NIL], sibling + [NIL])
  {
    var n := |child|;
    var child', sibling' := child + [NIL], sibling + [NIL];
    var r := Rank(child, sibling);
    var r' := r + [0];
    forall i | 0 <= i < |r'| ensures RankedAt(child', sibling', r', i) {
      if i < n {
        assert RankedAt(child, sibling, r, i);
        assert child'[i] == child[i] && sibling'[i] == sibling[i];
      }
    }
    assert RankedBy(child', sibling', r');
  }

  lemma AppendInjective(child: seq<int>, sibling: seq<int>)
    requires |child| == |sibling| && Injective(child, sibling)
    ensures Injective(child + [NIL], sibling + [NIL])
  {
  }

  lemma AppendOwnership(child: seq<int>, sibling: seq<int>, root: int, spare: set<int>)
    requires InBounds(child, sibling, root)
    requires root != NIL ==> Unlinked(child, sibling, root)
    requires Isolated(child, sibling, root, spare) && Covered(child, sibling, root, spare)
    requires root == NIL ==> forall i :: 0 <= i < |child| ==> i in spare
    ensures var n := |child|; var child', sibling' := child + [NIL], sibling + [NIL];
      && InBounds(child', sibling', root)
      && (root != NIL ==> Unlinked(child', sibling', root))
      && Isolated(child', sibling', root, spare + {n})
      && Covered(child', sibling', root, spare + {n})
  {
    var n := |child|;
    var child', sibling' := child + [NIL], sibling + [NIL];
    forall i | 0 <= i < |child'| && i != root && i !in spare + {n}
      ensures Owned(child', sibling', i)
    {
      assert Owned(child, sibling, i);
      var j :| 0 <= j < n && (child[j] == i || sibling[j] == i);
      assert child'[j] == child[j] && sibling'[j] == sibling[j];
    }
  }

  /** Releasing the last node, which is spare. */
  lemma TruncateForest(child: seq<int>, sibling: seq<int>, root: int, spare: set<int>, n: int)
    requires Forest(child, sibling, root, spare) && n in spare && n == |child| - 1
    ensures Forest(child[..n], sibling[..n], root, spare - {n})
  {
    TruncateAcyclic(child, sibling, n);
    TruncateOwnership(child, sibling, root, spare, n);
  }

  lemma TruncateAcyclic(child: seq<int>, sibling: seq<int>, n: int)
    requires |child| == |sibling| && Acyclic(child, sibling) && 0 <= n == |child| - 1
    requires Unlinked(child, sibling, n)
    ensures Acyclic(child[..n], sibling[..n])
  {
    var child', sibling' := child[..n], sibling[..n];
    var r := Rank(child, sibling);
    forall i | 0 <= i < n ensures RankedAt(child', sibling', r[..n], i) {
      assert RankedAt(child, sibling, r, i);
    }
    assert RankedBy(child', sibling', r[..n]);
  }

  lemma TruncateOwnership(child: seq<int>, sibling: seq<int>, root: int, spare: set<int>, n: int)
    requires Forest(child, sibling, root, spare) && n in spare && n == |child| - 1
    ensures var child', sibling' := child[..n], sibling[..n];
      && InBounds(child', sibling', root)
      && Injective(child', sibling')
      && (root != NIL ==> Unlinked(child', sibling', root))
      && Isolated(child', sibling', root, spare - {n})
      && Covered(child', sibling', root, spare - {n})
  {
    var child', sibling' := child[..n], sibling[..n];
    forall i | 0 <= i < n && i != root && i !in spare - {n}
      ensures Owned(child', sibling', i)
    {
      assert Owned(child, sibling, i);
      var j :| 0 <= j < |child| && (child[j] == i || sibling[j] == i);
      assert j != n;
      assert child'[j] == child[j] && sibling'[j] == sibling[j];
    }
  }

  /** Filling the empty sibling slot of `w` with the spare node `n`. */
  lemma AttachForest(child: seq<int>, sibling: seq<int>, root: int, spare: set<int>, w: int, n: int)
    requires Forest(child, sibling, root, spare) && n in spare
    requires 0 <= w < |child| && w !in spare && root != NIL && sibling[w] == NIL
    ensures Forest(child, sibling[w := n], root, spare - {n})
  {
    AttachAcyclic(child, sibling, w, n);
    AttachInjective(child, sibling, w, n);
    AttachOwnership(child, sibling, root, spare, w, n);
  }

  lemma AttachAcyclic(child: seq<int>, sibling: seq<int>, w: int, n: int)
    requires InBounds(child, sibling, NIL) && Acyclic(child, sibling)
    requires 0 <= w < |child| && 0 <= n < |child| && w != n
    requires Unlinked(child, sibling, n) && child[n] == NIL && sibling[n] == NIL
    ensures Acyclic(child, sibling[w := n])
  {
    var sibling' := sibling[w := n];
    var r := Rank(child, sibling);
    var r' := seq(|r|, i requires 0 <= i < |r| => if i == n then 0 else r[i] + 1);
    forall i | 0 <= i < |r'| ensures RankedAt(child, sibling', r', i) {
      assert RankedAt(child, sibling, r, i);
    }
    assert RankedBy(child, sibling', r');
  }

  lemma AttachInjective(child: seq<int>, sibling: seq<int>, w: int, n: int)
    requires |child| == |sibling| && Injective(child, sibling)
    requires 0 <= w < |child| && sibling[w] == NIL && n != NIL && Unlinked(child, sibling, n)
    ensures Injective(child, sibling[w := n])
  {
  }

  lemma AttachOwnership(child: seq<int>, sibling: seq<int>, root: int, spare: set<int>, w: int, n: int)
    requires InBounds(child, sibling, root) && n in spare
    requires Isolated(child, sibling, root, spare) && Covered(child, sibling, root, spare)
    requires root != NIL ==> Unlinked(child, sibling, root)
    requires 0 <= w < |child| && w !in spare && root != NIL && sibling[w] == NIL
    ensures var sibling' := sibling[w := n];
      && InBounds(child, sibling', root)
      && Unlinked(child, sibling', root)
      && Isolated(child, sibling', root, spare - {n})
      && Covered(child, sibling', root, spare - {n})
  {
    var sibling' := sibling[w := n];
    forall x | x in spare - {n} ensures Unlinked(child, sibling', x) {
      assert Unlinked(child, sibling, x);
    }
    forall i | 0 <= i < |child| && i != root && i !in spare - {n}
      ensures Owned(child, sibling', i)
    {
      if i == n {
        assert sibling'[w] == n;
      } else {
        assert Owned(child, sibling, i);
        var j :| 0 <= j < |child| && (child[j] == i || sibling[j] == i);
        assert child[j] == i || sibling'[j] == i;
      }
    }
  }

  /** The same for the empty child slot of `w`. */
  lemma AttachChildForest(child: seq<int>, sibling: seq<int>, root: int, spare: set<int>, w: int, n: int)
    requires Forest(child, sibling, root, spare) && n in spare
    requires 0 <= w < |child| && w !in spare && root != NIL && child[w] == NIL
    ensures Forest(child[w := n], sibling, root, spare - {n})
  {
    LinksSwap(child, sibling, root, spare);
    AttachForest(sibling, child, root, spare, w, n);
    LinksSwap(sibling, child[w := n], root, spare - {n});
  }

  /** add_child_node: the spare node `c` becomes the first child of `p`, and
      the old first child becomes the next sibling of `c`. */
  lemma PushChildForest(child: seq<int>, sibling: seq<int>, root: int, spare: set<int>, p: int, c: int)
    requires Forest(child, sibling, root, spare) && c in spare
    requires 0 <= p < |child| && p !in spare && root != NIL
    ensures Forest(child[p := c], sibling[c := child[p]], root, spare - {c})
  {
    PushChildAcyclic(child, sibling, p, c);
    PushChildInjective(child, sibling, p, c);
    PushChildOwnership(child, sibling, root, spare, p, c);
  }

  lemma PushChildAcyclic(child: seq<int>, sibling: seq<int>, p: int, c: int)
    requires InBounds(child, sibling, NIL) && Acyclic(child, sibling)
    requires 0 <= p < |child| && 0 <= c < |child| && p != c
    requires Unlinked(child, sibling, c) && child[c] == NIL && sibling[c] == NIL
    ensures Acyclic(child[p := c], sibling[c := child[p]])
  {
    var f := child[p];
    var child', sibling' := child[p := c], sibling[c := f];
    var r := Rank(child, sibling);
    var r' := seq(|r|, i requires 0 <= i < |r| => if i == c then 2 * r[p] + 1 else 2 * r[i] + 2);
    assert RankedAt(child, sibling, r, p);
    forall i | 0 <= i < |r'| ensures RankedAt(child', sibling', r', i) {
      assert RankedAt(child, sibling, r, i);
    }
    assert RankedBy(child', sibling', r');
  }

  lemma PushChildInjective(child: seq<int>, sibling: seq<int>, p: int, c: int)
    requires InBounds(child, sibling, NIL) && Injective(child, sibling)
    requires 0 <= p < |child| && 0 <= c < |child| && p != c
    requires Unlinked(child, sibling, c) && sibling[c] == NIL
    ensures Injective(child[p := c], sibling[c := child[p]])
  {
  }

  lemma PushChildOwnership(child: seq<int>, sibling: seq<int>, root: int, spare: set<int>, p: int, c: int)
    requires InBounds(child, sibling, root) && c in spare
    requires Isolated(child, sibling, root, spare) && Covered(child, sibling, root, spare)
    requires root != NIL ==> Unlinked(child, sibling, root)
    requires 0 <= p < |child| && p !in spare && root != NIL
    ensures var child', sibling' := child[p := c], sibling[c := child[p]];
      && InBounds(child', sibling', root)
      && Unlinked(child', sibling', root)
      && Isolated(child', sibling', root, spare - {c})
      && Covered(child', sibling', root, spare - {c})
  {
    var f := child[p];
    var child', sibling' := child[p := c], sibling[c := f];
    forall x | x in spare - {c} ensures Unlinked(child', sibling', x) && sibling'[x] == NIL {
      assert Unlinked(child, sibling, x);
      assert child[p] != x;
    }
    forall i | 0 <= i < |child| && i != root && i !in spare - {c}
      ensures Owned(child', sibling', i)
    {
      if i == c {
        assert child'[p] == c;
      } else if i == f {
        assert sibling'[c] == f;
      } else {
        assert Owned(child, sibling, i);
        var j :| 0 <= j < |child| && (child[j] == i || sibling[j] == i);
        assert child'[j] == i || sibling'[j] == i;
      }
    }
  }

  /** The first node of an empty tree becomes the root. */
  lemma SetRootForest(child: seq<int>, sibling: seq<int>, spare: set<int>, n: int)
    requires Forest(child, sibling, NIL, spare) && n in spare
    ensures Forest(child, sibling, n, spare - {n})
  {
    assert Unlinked(child, sibling, n);
  }
}
