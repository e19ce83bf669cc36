/** The heap form of the tree: the node records of suffix_tree.c as fields
    of one object that the insertion code updates in place. Each method is
    proved to end in the state a pure function describes: one of module
    Insertion for the insertion steps (add_node, add_node2, split_node,
    add_child_node, one turn of the construction loop, the strip of the
    pending label), Trees.Alloc for NewNode and Trees.Relabel for
    Relabel. */
module Builder {
  import opened Spans
  import opened Links
  import opened Trees
  import Insertion

  class SuffixTree {
    /** The caller's buffer; every label borrows from it. */
    const text: seq<char>
    /** suffix_tree_node.suffix of each node. */
    var suffix: seq<Span>
    /** suffix_tree_node.first_child of each node, NIL for NULL. */
    var firstChild: seq<int>
    /** suffix_tree_node.next_sibling of each node, NIL for NULL. */
    var nextSibling: seq<int>
    /** suffix_tree.root. */
    var root: int

    /** The arena value the fields stand for. */
    function Model(): Tree
      reads this
    {
      Tree(text, suffix, firstChild, nextSibling, root)
    }

    /** suffix_tree_create2 on one string of `text`'s length: each suffix,
        longest first, gets a fresh node that add_node inserts. The result
        is the tree Insertion.Build describes, so it is valid and empty
        exactly when the text is. */
    constructor (text: seq<char>)
      ensures Model() == Insertion.Build(text)
    {
      this.text := text;
      suffix, firstChild, nextSibling, root := [], [], [], NIL;
      new;
      assert Model() == Insertion.BuildUpTo(text, 0);
      for k := 0 to |text|
        invariant Model() == Insertion.BuildUpTo(text, k)
      {
        InsertSuffix(k);
      }
    }

    /** Turn `k` of the loop in suffix_tree_create2: a fresh node for the
        suffix at `k`, handed to add_node, takes the tree of the first `k`
        suffixes to the tree of the first `k + 1`. */
    method InsertSuffix(k: int)
      requires 0 <= k < |text| && Model() == Insertion.BuildUpTo(text, k)
      modifies this
      ensures Model() == Insertion.BuildUpTo(text, k + 1)
    {
      Insertion.BuildUpToNext(text, k);
      var node := NewNode(Span(k, |text| - k));
      AddNode(node);
    }

    /** new_suffix_tree_node: a node with label `s` and no links, at the
        end of the arena. */
    method NewNode(s: Span) returns (node: int)
      modifies this
      ensures node == |old(suffix)|
      ensures Model() == Alloc(old(Model()), s)
    {
      node := |suffix|;
      suffix, firstChild, nextSibling := suffix + [s], firstChild + [NIL], nextSibling + [NIL];
    }

    /** add_node: the first node becomes the root, later ones go through
        add_node2 from the root. */
    method AddNode(node: int)
      requires Pending(Model(), node)
      modifies this
      ensures Model() == Insertion.AddNode(old(Model()), node)
    {
      PendingIsolated(Model(), node);
      if root == NIL {
        root := node;
      } else {
        AddNode2(root, node);
      }
    }

    /** add_node2: the four cases on the common prefix of the labels of
        `walk` and `node`. */
    method AddNode2(walk: int, node: int)
      requires Pending(Model(), node) && 0 <= walk < |suffix| && walk != node
      modifies this
      ensures Model() == Insertion.AddNode2(old(Model()), walk, node)
      decreases RankOf(Model(), walk)
    {
      ghost var t := Model();
      PendingIsolated(t, node);
      RankDrops(t, walk);
      var offset := FindSplitPoint(text, suffix[walk], suffix[node]);
      assert offset == Lcp(Label(t, walk), Label(t, node));
      if offset == 0 {
        if nextSibling[walk] == NIL {
          assert Insertion.AddNode2(t, walk, node) == t.(nextSibling := t.nextSibling[walk := node]);
          nextSibling := nextSibling[walk := node];
        } else {
          assert Insertion.AddNode2(t, walk, node) == Insertion.AddNode2(t, t.nextSibling[walk], node);
          AddNode2(nextSibling[walk], node);
        }
      } else if offset == suffix[node].len {
        assert Insertion.AddNode2(t, walk, node) == Free(t, node);
        // destroy_suffix_tree_node: the pending node, the last allocated,
        // is released
        suffix, firstChild, nextSibling := suffix[..node], firstChild[..node], nextSibling[..node];
      } else if offset == suffix[walk].len {
        ghost var t1 := Insertion.Strip(t, node, offset);
        Strip(node, offset);
        Insertion.StripInv(t, node, offset);
        if firstChild[walk] == NIL {
          assert Insertion.AddNode2(t, walk, node) == t1.(firstChild := t1.firstChild[walk := node]);
          firstChild := firstChild[walk := node];
        } else {
          Insertion.AddNode2Descends(t, walk, node);
          AddNode2(firstChild[walk], node);
        }
      } else {
        assert Insertion.AddNode2(t, walk, node) == Insertion.SplitNode(t, walk, node, offset);
        SplitNode(walk, node, offset);
      }
    }

    /** split_node, under the source's assertions. */
    method SplitNode(parent: int, child0: int, offset: int)
      requires Shaped(Model()) && 0 <= parent < |suffix| && 0 <= child0 < |suffix| && parent != child0
      requires nextSibling[child0] == NIL
      requires 0 < offset < suffix[parent].len && suffix[parent].len > 1
      requires suffix[child0].len > 0
      requires suffix[child0].len == 1 || offset < suffix[child0].len
      modifies this
      ensures Model() == Insertion.SplitNode(old(Model()), parent, child0, offset)
    {
      if suffix[child0].len == 1 {
        AddChildNode(parent, child0);
        return;
      }
      var p := suffix[parent];
      var child1 := NewNode(Span(p.str + offset, p.len - offset));
      Strip(child0, offset);
      Relabel(parent, Span(p.str, offset));
      AddChildNode(parent, child0);
      AddChildNode(parent, child1);
    }

    /** The first `offset` bytes of the label of node `i` dropped in
        place. */
    method Strip(i: int, offset: int)
      requires 0 <= i < |suffix|
      modifies this
      ensures Model() == Insertion.Strip(old(Model()), i, offset)
    {
      suffix := suffix[i := Span(suffix[i].str + offset, suffix[i].len - offset)];
    }

    /** A new label for node `i`, written in place. */
    method Relabel(i: int, s: Span)
      requires 0 <= i < |suffix|
      modifies this
      ensures Model() == Trees.Relabel(old(Model()), i, s)
    {
      suffix := suffix[i := s];
    }

    /** add_child_node: `child` goes in front of the child list of
        `parent`. */
    method AddChildNode(parent: int, child: int)
      requires Shaped(Model()) && 0 <= parent < |suffix| && 0 <= child < |suffix|
      requires nextSibling[child] == NIL
      modifies this
      ensures Model() == Insertion.AddChildNode(old(Model()), parent, child)
    {
      nextSibling := nextSibling[child := firstChild[parent]];
      firstChild := firstChild[parent := child];
    }
  }
}
