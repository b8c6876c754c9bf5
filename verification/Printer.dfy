/** The recursive printer as it runs on the tree in memory. */
module Printer {
  import opened CallTree
  import opened Orders
  import opened Printing
  import opened StackTrees
  import opened Traversal

  /** A printed line: its indentation and the node whose numbers it shows. */
  datatype Row = Row(indent: string, address: nat)

  ghost predicate Shows(tree: StackTree, rows: seq<Row>, lines: seq<Line>)
    requires tree.Valid()
    reads tree
  {
    |rows| == |lines| && forall j :: 0 <= j < |rows| ==>
      && rows[j].indent == lines[j].indent
      && rows[j].address < |tree.nodes| && tree.PathAt(rows[j].address) == lines[j].node
  }

  /** The comparator of the sorted child set. */
  predicate NodeByTime(a: StackNode, b: StackNode) {
    if a.data.totalRuntime != b.data.totalRuntime then a.data.totalRuntime > b.data.totalRuntime
    else NameLess(a.name, b.name)
  }

  lemma SameComparator(tree: StackTree, a: nat, b: nat)
    requires tree.Valid() && a < |tree.nodes| && b < |tree.nodes|
    ensures NodeByTime(tree.nodes[a], tree.nodes[b]) == ByTime(tree.View(), tree.PathAt(a), tree.PathAt(b))
  {
    hide Linked, ViewOf, NameLess;
    tree.AtNode(a);
    tree.AtNode(b);
  }

  lemma InsertHead(t: Tree, list: seq<Path>, c: Path)
    ensures Insert(t, list, c) ==
      if list == [] || ByTime(t, c, list[0]) then [c] + list
      else if ByTime(t, list[0], c) then [list[0]] + Insert(t, list[1..], c)
      else list
  {
  }

  /** Where an entry goes that comes after the first `i` of the list and not after the next. */
  lemma {:induction false} InsertAt(t: Tree, paths: seq<Path>, c: Path, i: nat)
    requires i <= |paths| && (forall j :: 0 <= j < i ==> ByTime(t, paths[j], c))
    requires i < |paths| ==> !ByTime(t, paths[i], c)
    ensures Insert(t, paths, c)
      == if i == |paths| || ByTime(t, c, paths[i]) then paths[..i] + [c] + paths[i..] else paths
  {
    hide ByTime, Insert;
    InsertHead(t, paths, c);
    if i == 0 {
      assert paths[..0] + [c] + paths[0..] == [c] + paths;
    } else {
      var first, rest := paths[0], paths[1..];
      ByTimeTotal(t, first, c);
      InsertAt(t, rest, c, i - 1);
      assert Insert(t, paths, c) == [first] + Insert(t, rest, c);
      Spliced(paths, c, i);
    }
  }

  lemma Spliced(paths: seq<Path>, c: Path, i: nat)
    requires 0 < i <= |paths|
    ensures [paths[0]] + (paths[1..][..i - 1] + [c] + paths[1..][i - 1..]) == paths[..i] + [c] + paths[i..]
    ensures [paths[0]] + paths[1..] == paths
  {
  }

  /** Insertion into the sorted child set: an equivalent entry is kept. */
  method InsertByTime(tree: StackTree, list: seq<nat>, child: nat, ghost paths: seq<Path>) returns (list': seq<nat>)
    requires tree.Valid() && tree.Queued(list, paths) && child < |tree.nodes|
    ensures tree.Queued(list', Insert(tree.View(), paths, tree.PathAt(child)))
  {
    hide Linked, ViewOf, NameLess, NodeByTime, ByTime, Insert;
    var i := 0;
    ghost var t, c := tree.View(), tree.PathAt(child);
    while i < |list| && NodeByTime(tree.nodes[list[i]], tree.nodes[child])
      invariant 0 <= i <= |list|
      invariant forall j :: 0 <= j < i ==> ByTime(t, paths[j], c)
    {
      SameComparator(tree, list[i], child);
      i := i + 1;
    }
    if i < |list| {
      SameComparator(tree, list[i], child);
      SameComparator(tree, child, list[i]);
    }
    InsertAt(t, paths, c, i);
    if i == |list| || NodeByTime(tree.nodes[child], tree.nodes[list[i]]) {
      list' := list[..i] + [child] + list[i..];
    } else {
      list' := list;
    }
  }

  // ---- Visiting the children of a node in the order they are kept ----

  /** The children of a node, longest first: they are inserted kind by kind into a set sorted by time. */
  method ChildrenByTime(tree: StackTree, i: nat) returns (list: seq<nat>)
    requires tree.Valid() && i < |tree.nodes|
    ensures Siblings(Children(tree.View(), tree.PathAt(i)))
    ensures tree.Queued(list, Ordered(tree.View(), Children(tree.View(), tree.PathAt(i))))
  {
    hide Linked, ViewOf, NameLess, KeyLess, Ordered, Insert;
    ghost var t, p, seen: set<Path> := tree.View(), tree.PathAt(i), {};
    ChildrenAreSiblings(t, p);
    OrderedNone(t);
    tree.NoneSeen(i);
    list := [];
    var todo := tree.nodes[i].children.Keys;
    while todo != {}
      invariant todo <= tree.nodes[i].children.Keys
      invariant AllBut(t, p, todo, seen)
      invariant forall c, k :: c in seen && k in todo ==> KeyLess(Last(c), k)
      invariant Siblings(seen) && tree.Queued(list, Ordered(t, seen))
      decreases todo
    {
      LeastByKey(todo);
      var k :| k in todo && Least(todo, KeyLess, k);
      var child := tree.nodes[i].children[k];
      ghost var c := p + [k];
      tree.AtChild(i, k);
      ParentOfChild(p, k);
      OneLess(t, p, todo, seen, k);
      list := InsertByTime(tree, list, child, Ordered(t, seen));
      InsertNext(t, p, seen, k);
      seen, todo := seen + {c}, todo - {k};
    }
    AllSeen(t, p, seen);
  }

  lemma OrderedNone(t: Tree)
    ensures Siblings({}) && Ordered(t, {}) == []
  {
  }

  /** The next child by key goes into the sorted set where the report's order wants it. */
  lemma InsertNext(t: Tree, p: Path, seen: set<Path>, k: Key)
    requires seen <= Children(t, p) && p + [k] in Children(t, p) && p + [k] !in seen
    requires forall c :: c in seen ==> KeyLess(Last(c), k)
    ensures Siblings(seen) && Siblings(seen + {p + [k]})
    ensures Insert(t, Ordered(t, seen), p + [k]) == Ordered(t, seen + {p + [k]})
  {
    hide NameLess, Ordered, Insert, ByTime;
    var c := p + [k];
    ParentOfChild(p, k);
    assert seen + {c} <= Children(t, p);
    forall e | e in seen && Tied(t, e, c) ensures Rank(KeyOf(e).kind) < Rank(KeyOf(c).kind) {
      NameTotal(k.name, k.name);
    }
    InsertOrdered(t, seen, c);
  }

  /** Prints a node and, unless it is under the threshold, the nodes below it. */
  method PrintRecursive(tree: StackTree, i: nat, indent: string, childIndent: string, r: Settings)
    returns (rows: seq<Row>)
    requires tree.Valid() && i < |tree.nodes|
    ensures tree.PathAt(i) in tree.View()
    ensures Shows(tree, rows, PrintFrom(tree.View(), tree.PathAt(i), indent, childIndent, r))
    decreases Subtree(tree.View(), tree.PathAt(i)), 1
  {
    hide Linked, ViewOf, IsBelow, Ordered, PrintKids;
    ghost var t, p := tree.View(), tree.PathAt(i);
    tree.AtNode(i);
    if IsBelow(r, tree.nodes[i].data) {
      return [];
    }
    var own := if tree.nodes[i].name != "" then [Row(indent, i)] else [];
    var children := ChildrenByTime(tree, i);
    OrderedMembers(t, Children(t, p));
    var below := PrintChildren(tree, i, children, Ordered(t, Children(t, p)), childIndent, r);
    rows := own + below;
  }

  /** The loop over the sorted children; the last one closes the rail of its parent. */
  method PrintChildren(tree: StackTree, i: nat, children: seq<nat>, ghost kids: seq<Path>, childIndent: string,
      r: Settings)
    returns (rows: seq<Row>)
    requires tree.Valid() && i < |tree.nodes| && tree.PathAt(i) in tree.View() && tree.Queued(children, kids)
    requires forall c :: c in kids ==> c in Children(tree.View(), tree.PathAt(i))
    ensures Shows(tree, rows, PrintKids(tree.View(), tree.PathAt(i), kids, childIndent, r))
    decreases Subtree(tree.View(), tree.PathAt(i)), 0
  {
    hide Linked, ViewOf, IsBelow, Ordered, PrintFrom, PrintKids;
    ghost var t, p := tree.View(), tree.PathAt(i);
    rows := [];
    NoKids(t, p, childIndent, r);
    ghost var shown: seq<Line> := [];
    var n := 0;
    assert kids[0..] == kids;
    while n < |children|
      invariant 0 <= n <= |children|
      invariant Shows(tree, rows, shown)
      invariant PrintKids(t, p, kids, childIndent, r) == shown + PrintKids(t, p, kids[n..], childIndent, r)
    {
      var last := n + 1 == |children|;
      Printing.ChildSubtree(t, p, kids[n]);
      KidsUnfold(t, p, kids, n, childIndent, r);
      var grandchildIndent := childIndent + if last then "    " else "|   ";
      var below := PrintRecursive(tree, children[n], childIndent + "|-> ", grandchildIndent, r);
      rows := rows + below;
      shown := shown + PrintFrom(t, kids[n], childIndent + "|-> ", grandchildIndent, r);
      n := n + 1;
    }
  }

  lemma NoKids(t: Tree, p: Path, childIndent: string, r: Settings)
    requires p in t
    ensures PrintKids(t, p, [], childIndent, r) == []
  {
  }

  lemma KidsUnfold(t: Tree, p: Path, kids: seq<Path>, n: nat, childIndent: string, r: Settings)
    requires p in t && n < |kids| && kids[n] in Children(t, p) && forall c :: c in kids ==> c in Children(t, p)
    ensures PrintKids(t, p, kids[n..], childIndent, r)
      == PrintFrom(t, kids[n], childIndent + "|-> ", childIndent + (if n + 1 == |kids| then "    " else "|   "), r)
        + PrintKids(t, p, kids[n + 1..], childIndent, r)
  {
    assert kids[n..][1..] == kids[n + 1..];
  }
}
