# libsm suffix tree, modelled in Dafny

This project models the suffix tree of libsm (`suffix_tree.c`). A tree is
built over one caller-owned text. Every node label is a span
(`suffix_tree_string`): a start offset into that text and a length. It
is never a copy. Each node has a first-child link and a next-sibling link.
The tree itself is a pointer to the root, which is the head of the
top-level list. `suffix_tree_create2` inserts every suffix of the text,
longest first. For each suffix it allocates a node and hands it to
`add_node`. `add_node2` then walks the lists and picks one of four cases by
the common prefix that `find_split_point` computes:

- no common prefix: go to the next sibling, or append at the end of the list;
- the new label is a prefix of the node's label: discard the new node;
- the node's label is a proper prefix of the new label: strip it from the new label and descend, or attach as first child;
- otherwise: split with `split_node`.

`suffix_tree_search` walks down from the root the same way. It compares
the pattern with one label at a time and never backtracks.

How the model is laid out:

- The heap of `suffix_tree_node` records becomes an arena. `Trees.Tree`
  holds a sequence of labels, a sequence of first-child links and a
  sequence of next-sibling links (indices, with `NIL` for `NULL`) and the
  root link.
- `new_suffix_tree_node` appends a node to the arena. Releasing the node
  that add_node2 discards drops the last entry, which is always the one
  just allocated.
- The operations that update nodes in place are methods of the class
  `Builder.SuffixTree`. Its fields are these sequences. Each method is
  proved to end in the state a pure function describes: one of module
  `Insertion` for the insertion steps, `Trees.Alloc` for `NewNode` and
  `Trees.Relabel` for `Relabel`. Those functions carry the proofs.
- `find_split_point` is a method with the source's loop. It is proved to
  compute the longest common prefix (`Spans.Lcp`).
- `search` is a pure function (`Searching.SearchFrom`).

Invariants that are proved:

- Every label is non-empty and lies inside the text.
- Every link is `NIL` or a node.
- The links are acyclic. A rank decreases along every link.
- No node is the target of two links.
- Every node except the root is the target of a link. The one node just
  allocated is the exception until it is linked in.

These hold after each step of `add_node2`, `split_node` and
`add_child_node`, and after every turn of the construction loop. On top
of them, each insertion is shown to leave its suffix findable: right after
the suffix at `k` is added, `Search` for `text[k..]` finds something. When
the node stayed in the tree, what it finds is exactly `k`.

Modules, one per file:

| file | module | what it holds |
|---|---|---|
| `spans.dfy` | `Spans` | spans, longest common prefix, `find_split_point` |
| `links.dfy` | `Links` | the link structure: ranks, single ownership, and how allocation, release and the three kinds of link update keep it |
| `tree.dfy` | `Trees` | the arena, its invariants, allocation, release, relabelling, sibling lists |
| `insert.dfy` | `Insertion` | `add_child_node`, `split_node`, `add_node2`, `add_node`, the construction loop, as functions |
| `search.dfy` | `Searching` | `search`, `suffix_tree_search` and what a hit means |
| `findable.dfy` | `Findable` | each inserted suffix is found right after its insertion |
| `builder.dfy` | `Builder` | the in-place class `SuffixTree` |

Where the code departs from a textbook suffix tree, the model follows the
code:

- When the new label is equal to the node's label or a prefix of it
  (`offset == node->suffix.len`), the new node is released and nothing is
  split. This holds even when it is shorter than the node's label.
- `split_node` leaves the old children of the cut node under its first
  part, next to `child0` and the new tail, instead of moving them below
  the tail. split_node gives the tail no children (a later insertion
  may). The model keeps this behaviour: `Insertion.SplitNodeSpec` states
  `Children(r, parent) == [tail, child0] + Children(t, parent)` and
  `Children(r, tail) == []`.

## Model

| member | source | states |
|---|---|---|
| Spans.Lcp | suffix_tree.c:284-293 | the result is the longest common prefix: both inputs agree on the first `k` bytes, `k` fits both, and the next bytes differ when both go on |
| Spans.LcpFrom | suffix_tree.c:287-291 | continuing from a prefix `i` that already agrees, the result is at least `i` and is the longest common prefix |
| Spans.LcpUnique | suffix_tree.c:284-293 | any `k` with the three properties of a longest common prefix equals `Lcp` |
| Spans.FindSplitPoint | suffix_tree.c:271-294 | with both lengths non-zero (the source's assertions), the loop returns a `k` no larger than either length on which the spans agree, and after which they differ when both go on; that is, `Lcp` of the two labels |
| Spans.SplitPointExamples | suffix_tree.c:391-424 | the five split points of the unit tests: papua/pua 1, xyzzy/foo 0, xyzzy/yyy 0, xyzzy/xxx 1, papua/papa 3 |
| Trees.Empty | suffix_tree.c:83-97 | the tree before the first suffix has no root and no nodes, and is valid |
| Trees.Alloc | suffix_tree.c:195-209 | the new node is the last one, carries the given label and has no links; text and root stay |
| Trees.AllocKeeps | suffix_tree.c:195-209 | allocation keeps every existing node's label and both links |
| Trees.Free | suffix_tree.c:240-244 | the released node was the last one: one node fewer, every remaining node keeps its label and both links, text and root stay |
| Trees.AllocFree | suffix_tree.c:195-209 | releasing a last node with no links and allocating its label again gives back the same arena |
| Trees.Relabel | suffix_tree.c:334 | node `i` gets the given label; every other label, the number of nodes, the links, text and root stay |
| Trees.AllocInv | suffix_tree.c:195-209 | a fresh node with no links and a label inside the text keeps the invariant, as one more unlinked node |
| Trees.FreeAlloc | suffix_tree.c:184-193 | allocating a node and releasing it gives back the same arena |
| Trees.FreeInv | suffix_tree.c:240-244 | releasing the last, unlinked node keeps the invariant for the other nodes |
| Trees.RelabelInv | suffix_tree.c:331-334 | a new label inside the text keeps the invariant |
| Trees.AttachSiblingInv | suffix_tree.c:231-234 | filling an empty next-sibling slot with the unlinked node links it in and keeps the invariant |
| Trees.AttachChildInv | suffix_tree.c:253-256 | filling an empty first-child slot with the unlinked node links it in and keeps the invariant |
| Trees.PushChildInv | suffix_tree.c:296-305 | pushing the unlinked node in front of a child list keeps the invariant |
| Trees.SetRootInv | suffix_tree.c:212-215 | in an empty tree the unlinked node becomes the root and the tree is valid |
| Links.AppendForest | suffix_tree.c:195-209 | one more node with no links keeps the forest, with that node spare |
| Links.TruncateForest | suffix_tree.c:184-193 | releasing the last, spare node keeps the forest for the others |
| Links.AttachForest | suffix_tree.c:231-234 | the spare node in an empty next-sibling slot keeps the forest, with that node now owned |
| Links.AttachChildForest | suffix_tree.c:253-256 | the spare node in an empty first-child slot keeps the forest |
| Links.PushChildForest | suffix_tree.c:296-305 | the spare node in front of a child list keeps the forest |
| Links.SetRootForest | suffix_tree.c:212-215 | the first node of an empty tree as root keeps the forest |
| Insertion.AddChildNode | suffix_tree.c:296-305 | the arena keeps its shape; all labels, text and root stay |
| Insertion.AddChildNodeLinks | suffix_tree.c:296-305 | `child` becomes the first child of `parent` and its next sibling is the old first child; every other link stays |
| Insertion.AddChildNodeSpec | suffix_tree.c:296-305 | the child list of `parent` gains `child` in front, every other list stays the same, and the tree stays valid with `child` linked in |
| Insertion.SplitNode | suffix_tree.c:307-344 | under the source's assertions, at most one node is added, and every node other than `parent` and `child0` keeps its label and links |
| Insertion.CutLabels | suffix_tree.c:325-334 | one tail node is added; `parent` keeps its start and is cut to `offset` bytes, the tail starts where the cut label ends and ends where the old label ended; `child0` starts `offset` bytes later and keeps its end; every other label stays |
| Insertion.CutLabelsSpec | suffix_tree.c:325-334 | the cut labels stay in the text; the new label of `parent` followed by the tail's is the old label of `parent`, and `child0` loses its first `offset` bytes |
| Insertion.SplitNodeSpec | suffix_tree.c:307-344 | as add_node2 calls it: exactly one node (the tail) is added; the child list of `parent` becomes tail, `child0`, then its old children; the tail has no children; every other list is unchanged; the tree stays valid |
| Insertion.AddNode2 | suffix_tree.c:220-269 | the arena changes size by at most one node either way |
| Insertion.Strip | suffix_tree.c:248-249 | the pending label starts `offset` bytes later and keeps its end; every other label and all links stay |
| Insertion.StripInv | suffix_tree.c:248-251 | dropping fewer bytes than the label has keeps the node pending, with the label's remaining bytes, and releasing it afterwards gives the same tree |
| Insertion.AddNode2Spec | suffix_tree.c:220-269 | every case keeps the tree valid with root and text unchanged, adds at most one node, and shrinks the arena only by releasing the pending node (back to the tree it was allocated in); old labels keep their start and can only get shorter |
| Insertion.AddNode2Discards | suffix_tree.c:239-244 | when the new label is a prefix of (or equal to) the node's label, the result is the tree with the new node released |
| Insertion.AddNode2Appends | suffix_tree.c:229-234 | with no common prefix and no next sibling, the pending node becomes the next sibling of `walk` with empty links of its own, and no label or other link changes |
| Insertion.AddNode2Skips | suffix_tree.c:229-236 | with no common prefix and a next sibling, add_node2 goes on with that sibling |
| Insertion.AddNode2Attaches | suffix_tree.c:246-256 | when the label of `walk` is a proper prefix of the pending label and `walk` has no children, the stripped pending node becomes its only child; the tree stays valid with no node added and no other label or first-child link changed |
| Insertion.AddNode2Descends | suffix_tree.c:246-259 | when the node's label is a proper prefix of the new label and the node has children, insertion goes on in the child list with the new node stripped of that prefix |
| Insertion.AddNode | suffix_tree.c:211-218 | the arena changes size by at most one node either way |
| Insertion.AddNodeSpec | suffix_tree.c:211-218 | in an empty tree the node becomes the root and nothing else changes; otherwise the root stays and the properties of add_node2 hold; the tree stays valid |
| Insertion.InsertSuffix | suffix_tree.c:107-119 | one turn (new_suffix_tree_node, then add_node) adds between 0 and 2 nodes |
| Insertion.InsertSuffixSpec | suffix_tree.c:107-119 | one turn keeps the tree valid and adds 0, 1 or 2 nodes; adding none leaves the tree exactly as before; the first suffix becomes the root with the whole text as label |
| Insertion.BuildUpTo | suffix_tree.c:101-120 | after `k` turns the tree is valid, empty exactly when `k` is 0, otherwise rooted at node 0 whose label starts at 0, and has at most `2k` nodes |
| Insertion.BuildUpToNext | suffix_tree.c:107-119 | turn `k` is new_suffix_tree_node for suffix `k` followed by add_node on the pending node |
| Insertion.InsertKeeps | suffix_tree.c:107-119 | the construction loop's invariant is carried over one turn |
| Insertion.Build | suffix_tree.c:77-123 | the finished tree is valid, and has no root exactly when the text is empty |
| Searching.SearchFrom | suffix_tree.c:150-182 | a hit leaves room for the rest of the pattern before the end of the text |
| Searching.Search | suffix_tree.c:135-148 | an empty pattern or an empty tree gives no hit; a hit leaves room for the whole pattern in the text |
| Searching.SearchSkips | suffix_tree.c:163-174 | a label that does not match the pattern (up to the shorter length) sends the walk to the next sibling |
| Searching.SearchDescends | suffix_tree.c:171-180 | a label that is a proper prefix of the pattern sends the walk to the first child with the rest of the pattern |
| Searching.SearchHits | suffix_tree.c:163-169 | a pattern the label starts with is found at the label's start minus the bytes consumed |
| Searching.SearchFromSound | suffix_tree.c:150-182 | every hit is explained by a path down the tree whose labels spell the pattern; the hit is the start of the last label on that path minus the bytes of the labels before it (the text need not hold the pattern there) |
| Searching.SearchSound | suffix_tree.c:135-148 | the same from the root: a hit at `x` means `pattern` is spelled by the labels along a path from the root, and `x` is the last label's start minus the length of the labels before it |
| Findable.AddNode2Frame | suffix_tree.c:220-269 | add_node2 from `walk` changes no node of higher rank than `walk` |
| Findable.AddNode2FrameStep | suffix_tree.c:230-268 | the cases that do not recurse touch only `walk`, the pending node and the new tail |
| Findable.AddNode2Finds | suffix_tree.c:220-269 | right after add_node2 from `walk`, search from `walk` for the pending label finds something, and finds the node's own start when the node was kept |
| Findable.AddNode2FindsBelow | suffix_tree.c:246-259 | the same in the strip-and-descend case |
| Findable.AddNode2FindsAttached | suffix_tree.c:253-256 | the same when the stripped node becomes the first child |
| Findable.AddNode2FindsDeeper | suffix_tree.c:258 | the same when insertion goes on in the child list |
| Findable.StrippedFinds | suffix_tree.c:246-258 | after the recursive insertion into the child list, search from `walk` for the full label finds it through `walk` |
| Findable.AddNode2FindsSplit | suffix_tree.c:261-268 | the same in the split case, where the node is always kept and exactly one tail is added |
| Findable.SplitFinds | suffix_tree.c:307-344 | after split_node, search from the cut node for the pending label finds the pending node's start |
| Findable.AddNodeFinds | suffix_tree.c:211-218 | right after add_node, searching the tree for the pending label finds something, and finds the node's start when the node was kept |
| Findable.InsertFinds | suffix_tree.c:107-119 | right after the turn for suffix `k`, suffix_tree_search for `text[k..]` finds something, and finds `k` when the turn added a node |
| Builder.SuffixTree.constructor | suffix_tree.c:77-123 | the single-string construction loop ends in the tree `Insertion.Build` describes |
| Builder.SuffixTree.InsertSuffix | suffix_tree.c:107-119 | one loop turn takes the tree of the first `k` suffixes to the tree of the first `k + 1` |
| Builder.SuffixTree.NewNode | suffix_tree.c:195-209 | a node with the given label and no links is appended, at index equal to the old node count |
| Builder.SuffixTree.AddNode | suffix_tree.c:211-218 | the in-place add_node ends in `Insertion.AddNode` of the old state |
| Builder.SuffixTree.AddNode2 | suffix_tree.c:220-269 | the in-place add_node2, with its recursion, ends in `Insertion.AddNode2` of the old state |
| Builder.SuffixTree.SplitNode | suffix_tree.c:307-344 | the in-place split_node ends in `Insertion.SplitNode` of the old state |
| Builder.SuffixTree.Strip | suffix_tree.c:248-249 | the pending label loses its first `offset` bytes in place |
| Builder.SuffixTree.Relabel | suffix_tree.c:334 | the label of one node is replaced in place |
| Builder.SuffixTree.AddChildNode | suffix_tree.c:296-305 | the in-place add_child_node ends in `Insertion.AddChildNode` of the old state |

## Left out

- Memory allocation failure: `new_suffix_tree_node` always succeeds here, so the `NULL` returns of `suffix_tree_create2` and the 0 (failure) returns of `split_node`, `add_node2` and `add_node` are not modelled.
- `suffix_tree_destroy` and `destroy_suffix_tree_node` free the whole tree recursively. Only the release of the one node add_node2 discards is modelled, as truncating the arena.
- `suffix_tree_create` and `suffix_tree_create_single` only package their arguments and call `suffix_tree_create2`. They and the `n_strings == -1` sentinel count are not part of this model. More than one string trips the source's `assert(n_strings == 1)`, so only a single string is modelled.
- `suffix_tree_node_dump` and `suffix_tree_dump` write to a `FILE *`. Output is out of scope.
- Pointers are indices into the arena, and the text is a `seq<char>`. Pointer arithmetic on `str` becomes arithmetic on offsets, and a search hit is an offset into the text rather than a pointer.
- `int` overflow of lengths and offsets is not modelled, because lengths are unbounded integers here.
- Findable.InsertFinds: it states that each suffix is found right after its own insertion, not in the finished tree. Later splits keep old children under the cut node (see above), and the model does not claim that every substring is found in the finished tree.
- Searching.SearchFromSound: it ties a hit to a tree path whose labels spell the pattern, not to the text. The returned position need not hold the pattern, and an occurrence in the text need not be found, because split_node keeps old children under the cut node. For the text "abcxabcyabd", the suffix at 8 cuts "abc" to "ab" with a childless tail "c", while "xabcyabd" and "yabd" stay below "ab". A search for "abx" then goes through "ab" into "xabcyabd" and returns 1, where the text holds "bcx"; a search for "abcx" returns nothing, though it occurs at 0. Neither a text-level soundness nor a completeness property is claimed.
- The unit tests' searches in the long English text are not evaluated. Only the five `find_split_point` cases are restated, in Spans.SplitPointExamples.
- Spans.FindSplitPoint: the source's `NULL` checks on the two spans have no counterpart, because a span here is always a value.
