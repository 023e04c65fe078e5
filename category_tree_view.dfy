/** The admin category tree (components/admin/CategoryTree.tsx): levels, the flattened
    list of visible rows, the expanded set, drag-and-drop reordering, per-category article
    counts and the disabled Delete entry. */
module CategoryTreeView {

  import opened Wrappers
  import opened Types
  import Seqs
  import opened CategoryHierarchy
  import opened CategoryEdits
  import CategoryStore

  /** A row of the tree: the category, its depth and its sub-rows. */
  datatype TreeNode = TreeNode(category: Category, level: nat, children: seq<TreeNode>)

  // ---------------------------------------------------------------------
  // buildTreeWithLevels
  // ---------------------------------------------------------------------

  /** `buildTreeWithLevels(nodes, level)`. */
  function WithLevels(nodes: seq<CategoryTree>, level: nat): seq<TreeNode>
    decreases nodes
  {
    if nodes == [] then []
    else [TreeNode(nodes[0].category, level, WithLevels(nodes[0].children, level + 1))]
         + WithLevels(nodes[1..], level)
  }

  /** Forgets the levels. */
  function Strip(nodes: seq<TreeNode>): seq<CategoryTree>
    decreases nodes
  {
    if nodes == [] then []
    else [CategoryTree(nodes[0].category, Strip(nodes[0].children))] + Strip(nodes[1..])
  }

  /** Every node of the forest sits at `level`, and its children one level deeper. */
  predicate LevelsFrom(nodes: seq<TreeNode>, level: nat)
    decreases nodes
  {
    nodes != [] ==>
      nodes[0].level == level && LevelsFrom(nodes[0].children, level + 1) && LevelsFrom(nodes[1..], level)
  }

  /** Adding levels keeps the tree as it was (shape, categories and child order), starts
      the roots at the given level and puts every child one level below its parent. */
  lemma {:induction false} WithLevelsSpec(nodes: seq<CategoryTree>, level: nat)
    ensures Strip(WithLevels(nodes, level)) == nodes
    ensures LevelsFrom(WithLevels(nodes, level), level)
    ensures |WithLevels(nodes, level)| == |nodes|
    decreases nodes
  {
    if nodes != [] {
      WithLevelsSpec(nodes[0].children, level + 1);
      WithLevelsSpec(nodes[1..], level);
      var r := WithLevels(nodes, level);
      var head := TreeNode(nodes[0].category, level, WithLevels(nodes[0].children, level + 1));
      var tail := WithLevels(nodes[1..], level);
      assert r == [head] + tail;
      assert r[0] == head && r[1..] == tail;
      assert Strip(r) == [CategoryTree(nodes[0].category, nodes[0].children)] + nodes[1..];
      assert nodes == [nodes[0]] + nodes[1..];
    }
  }

  // ---------------------------------------------------------------------
  // flattenTree
  // ---------------------------------------------------------------------

  function IdOf(n: TreeNode): string
  {
    n.category.id
  }

  /** The rows on screen: pre-order, entering a node's children only when it is expanded. */
  function Flattened(nodes: seq<TreeNode>, expanded: set<string>): seq<TreeNode>
    decreases nodes
  {
    if nodes == [] then []
    else
      var n := nodes[0];
      [n] + (if IdOf(n) in expanded && |n.children| > 0 then Flattened(n.children, expanded) else [])
      + Flattened(nodes[1..], expanded)
  }

  /** `flattenTree(nodes)`: the `reduce` that pushes each node and then, when it is
      expanded, its flattened children onto one accumulator. */
  method FlattenTree(nodes: seq<TreeNode>, expanded: set<string>) returns (acc: seq<TreeNode>)
    ensures acc == Flattened(nodes, expanded)
    decreases nodes
  {
    acc := [];
    var i := 0;
    while i < |nodes|
      invariant 0 <= i <= |nodes|
      invariant acc + Flattened(nodes[i..], expanded) == Flattened(nodes, expanded)
    {
      var node := nodes[i];
      var sub: seq<TreeNode> := [];
      if IdOf(node) in expanded && |node.children| > 0 {
        sub := FlattenTree(node.children, expanded);
      }
      FlattenedStep(nodes, i, expanded, acc, sub);
      acc := acc + ([node] + sub);
      i := i + 1;
    }
    assert nodes[|nodes|..] == [];
  }

  /** One step of the `reduce`: the node, then its rows when it is expanded. */
  lemma FlattenedStep(nodes: seq<TreeNode>, i: nat, expanded: set<string>, acc: seq<TreeNode>, sub: seq<TreeNode>)
    requires i < |nodes|
    requires sub == if IdOf(nodes[i]) in expanded && |nodes[i].children| > 0
                    then Flattened(nodes[i].children, expanded) else []
    ensures acc + Flattened(nodes[i..], expanded) == (acc + ([nodes[i]] + sub)) + Flattened(nodes[i + 1..], expanded)
  {
    var m := nodes[i..];
    assert m[0] == nodes[i] && m[1..] == nodes[i + 1..];
    assert Flattened(m, expanded) == ([nodes[i]] + sub) + Flattened(nodes[i + 1..], expanded);
    Append3(acc, [nodes[i]] + sub, Flattened(nodes[i + 1..], expanded));
  }

  lemma Append3<T>(a: seq<T>, b: seq<T>, c: seq<T>)
    ensures a + (b + c) == (a + b) + c
  {
  }

  /** With nothing expanded the rows are exactly the roots. */
  lemma {:induction false} FlattenNothingExpanded(nodes: seq<TreeNode>)
    ensures Flattened(nodes, {}) == nodes
    decreases nodes
  {
    if nodes != [] {
      FlattenNothingExpanded(nodes[1..]);
    }
  }

  /** The roots are always shown, in order. */
  lemma {:induction false} FlattenKeepsRoots(nodes: seq<TreeNode>, expanded: set<string>)
    ensures Seqs.IsSubseq(nodes, Flattened(nodes, expanded))
    decreases nodes
  {
    if nodes != [] {
      var n := nodes[0];
      var sub := if IdOf(n) in expanded && |n.children| > 0 then Flattened(n.children, expanded) else [];
      var rest := Flattened(nodes[1..], expanded);
      FlattenKeepsRoots(nodes[1..], expanded);
      SubseqAfter(nodes[1..], rest, sub);
      assert Flattened(nodes, expanded) == [n] + (sub + rest);
      assert ([n] + (sub + rest))[1..] == sub + rest;
    }
  }

  lemma {:induction false} SubseqAfter(r: seq<TreeNode>, s: seq<TreeNode>, t: seq<TreeNode>)
    requires Seqs.IsSubseq(r, s)
    ensures Seqs.IsSubseq(r, t + s)
    decreases |t|
  {
    if t == [] {
      assert t + s == s;
    } else {
      SubseqAfter(r, s, t[1..]);
      Seqs.SubseqFromTail(r, t[1..] + s, t[0]);
      assert [t[0]] + (t[1..] + s) == t + s;
    }
  }

  // ---------------------------------------------------------------------
  // toggleExpand
  // ---------------------------------------------------------------------

  /** `toggleExpand(id)`: copy the set, then delete the id if present, else add it. */
  function ToggleExpand(expanded: set<string>, id: string): (r: set<string>)
    ensures forall x :: x in r <==> (if x == id then x !in expanded else x in expanded)
  {
    if id in expanded then expanded - {id} else expanded + {id}
  }

  /** Toggling twice restores the set. */
  lemma ToggleExpandTwice(expanded: set<string>, id: string)
    ensures ToggleExpand(ToggleExpand(expanded, id), id) == expanded
  {
  }

  // ---------------------------------------------------------------------
  // handleDragEnd
  // ---------------------------------------------------------------------

  /** dnd-kit's `arrayMove(s, from, to)`: take the element out at `from`, put it back in
      at `to`. */
  function ArrayMove<T>(s: seq<T>, from: nat, to: nat): (r: seq<T>)
    requires from < |s| && to < |s|
  {
    var rest := Seqs.RemoveAt(s, from);
    rest[..to] + [s[from]] + rest[to..]
  }

  /** The moved element lands at `to`, and taking it out again gives the others in their
      old order; so the result is a permutation. */
  lemma ArrayMoveSpec<T>(s: seq<T>, from: nat, to: nat)
    requires from < |s| && to < |s|
    ensures |ArrayMove(s, from, to)| == |s| && ArrayMove(s, from, to)[to] == s[from]
    ensures Seqs.RemoveAt(ArrayMove(s, from, to), to) == Seqs.RemoveAt(s, from)
    ensures multiset(ArrayMove(s, from, to)) == multiset(s)
  {
    var rest := Seqs.RemoveAt(s, from);
    var r := ArrayMove(s, from, to);
    assert r[..to] == rest[..to];
    assert r[to + 1..] == rest[to..];
    assert rest == rest[..to] + rest[to..];
    assert r == rest[..to] + [s[from]] + rest[to..];
    assert s == s[..from] + [s[from]] + s[from + 1..];
    calc {
      multiset(r);
      multiset(rest[..to]) + multiset{s[from]} + multiset(rest[to..]);
      multiset(rest) + multiset{s[from]};
      multiset(s[..from]) + multiset(s[from + 1..]) + multiset{s[from]};
      multiset(s);
    }
  }

  function NodeId(id: string): TreeNode -> bool
  {
    (n: TreeNode) => IdOf(n) == id
  }

  function RowIds(rows: seq<TreeNode>): (r: seq<string>)
    ensures |r| == |rows| && forall i :: 0 <= i < |rows| ==> r[i] == IdOf(rows[i])
  {
    seq(|rows|, i requires 0 <= i < |rows| => IdOf(rows[i]))
  }

  /** `handleDragEnd`: the ids handed to `reorderCategories`, or `None` when it is not
      called (no drop target, dropped on itself, or an id not among the rows). */
  function DragEnd(rows: seq<TreeNode>, activeId: string, overId: Option<string>): Option<seq<string>>
  {
    if overId.None? || activeId == overId.value then None
    else
      var oldIndex := Seqs.FindIndex(rows, NodeId(activeId));
      var newIndex := Seqs.FindIndex(rows, NodeId(overId.value));
      if oldIndex != -1 && newIndex != -1 then Some(RowIds(ArrayMove(rows, oldIndex, newIndex)))
      else None
  }

  lemma RowIdsFound(rows: seq<TreeNode>, id: string)
    ensures id in RowIds(rows) <==> Seqs.FindIndex(rows, NodeId(id)) >= 0
  {
    if id in RowIds(rows) {
      var k :| 0 <= k < |rows| && RowIds(rows)[k] == id;
      assert NodeId(id)(rows[k]);
    }
  }

  /** Where the element at position `k` after `arrayMove(_, from, to)` came from. */
  function MoveSource(from: nat, to: nat, k: nat): nat
  {
    if k == to then from
    else
      var j := if k < to then k else k - 1;
      if j < from then j else j + 1
  }

  lemma ArrayMoveAt<T>(s: seq<T>, from: nat, to: nat, k: nat)
    requires from < |s| && to < |s| && k < |s|
    ensures MoveSource(from, to, k) < |s| && ArrayMove(s, from, to)[k] == s[MoveSource(from, to, k)]
  {
    var rest := Seqs.RemoveAt(s, from);
    assert ArrayMove(s, from, to) == rest[..to] + [s[from]] + rest[to..];
  }

  lemma RowIdsMove(rows: seq<TreeNode>, from: nat, to: nat)
    requires from < |rows| && to < |rows|
    ensures RowIds(ArrayMove(rows, from, to)) == ArrayMove(RowIds(rows), from, to)
  {
    var a := RowIds(ArrayMove(rows, from, to));
    var b := ArrayMove(RowIds(rows), from, to);
    ArrayMoveSpec(rows, from, to);
    ArrayMoveSpec(RowIds(rows), from, to);
    forall k | 0 <= k < |a| ensures a[k] == b[k] {
      ArrayMoveAt(rows, from, to, k);
      ArrayMoveAt(RowIds(rows), from, to, k);
    }
  }

  /** A drop hands over a permutation of the visible ids in which the dragged id sits where
      the target was and the other rows keep their order; without a target, on itself,
      or with an unknown id nothing is reordered. */
  lemma DragEndSpec(rows: seq<TreeNode>, activeId: string, overId: Option<string>)
    ensures DragEnd(rows, activeId, overId).Some? <==>
      overId.Some? && activeId != overId.value
      && activeId in RowIds(rows) && overId.value in RowIds(rows)
    ensures DragEnd(rows, activeId, overId).Some? ==>
      var ids := DragEnd(rows, activeId, overId).value;
      var to := Seqs.FindIndex(rows, NodeId(overId.value));
      && multiset(ids) == multiset(RowIds(rows))
      && 0 <= to < |ids| && ids[to] == activeId
      && Seqs.RemoveAt(ids, to) == Seqs.RemoveAt(RowIds(rows), Seqs.FindIndex(rows, NodeId(activeId)))
  {
    if overId.Some? && activeId != overId.value {
      var oldIndex := Seqs.FindIndex(rows, NodeId(activeId));
      var newIndex := Seqs.FindIndex(rows, NodeId(overId.value));
      RowIdsFound(rows, activeId);
      RowIdsFound(rows, overId.value);
      if oldIndex >= 0 && newIndex >= 0 {
        RowIdsMoved(rows, oldIndex, newIndex);
      }
    }
  }

  /** The ids after moving a row: the same ids, the moved one at its new place, the
      others in their old order. */
  lemma RowIdsMoved(rows: seq<TreeNode>, from: nat, to: nat)
    requires from < |rows| && to < |rows|
    ensures var ids := RowIds(ArrayMove(rows, from, to));
      && multiset(ids) == multiset(RowIds(rows))
      && |ids| == |rows| && ids[to] == IdOf(rows[from])
      && Seqs.RemoveAt(ids, to) == Seqs.RemoveAt(RowIds(rows), from)
  {
    RowIdsMove(rows, from, to);
    ArrayMoveSpec(RowIds(rows), from, to);
  }

  // ---------------------------------------------------------------------
  // getArticleCount and the Delete entry
  // ---------------------------------------------------------------------

  function InCategory(id: string): Article -> bool
  {
    (a: Article) => a.category.id == id
  }

  /** `getArticleCount(id)`: `articles.filter(a => a.category.id === id).length`. */
  function ArticleCount(articles: seq<Article>, id: string): (n: nat)
    ensures n == Seqs.Count(articles, InCategory(id))
  {
    Seqs.FilterLength(articles, InCategory(id));
    |Seqs.Filter(articles, InCategory(id))|
  }

  /** The Delete entry is enabled for every node but 'uncategorized'. */
  function DeleteEnabled(node: TreeNode): bool
  {
    IdOf(node) != CategoryStore.Uncategorized
  }

  /** For a listed category the menu agrees with `canDeleteCategory`. */
  lemma DeleteEnabledAgrees(cats: seq<Category>, node: TreeNode)
    requires node.category in cats
    ensures DeleteEnabled(node) == CategoryStore.CanDeleteCategory(cats, IdOf(node)).canDelete
  {
  }
}
