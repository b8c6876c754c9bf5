/** The call tree in memory: nodes at addresses, with parent pointers and keyed child sets. */
module StackTrees {
  import opened Sums
  import opened CallTree
  import opened Profile
  import opened Aggregation
  import opened Inversion
  import opened Traversal
  import opened Reduction

  datatype Pointer = Null | To(address: nat)

  datatype StackNode = StackNode(parent: Pointer, name: string, kind: StackKind, children: map<Key, nat>, data: Data) {
    function Key(): Key {
      CallTree.Key(kind, name)
    }
  }

  /** Which path each address holds, and where each path is held. */
  datatype Layout = Layout(paths: seq<Path>, at: map<Path, nat>)

  /** Parent pointers, child sets and paths describe one tree with its root at address 0. */
  ghost predicate Linked(nodes: seq<StackNode>, l: Layout) {
    && 0 < |nodes| == |l.paths| && l.paths[0] == []
    && (forall i :: 0 <= i < |nodes| ==> l.paths[i] in l.at && l.at[l.paths[i]] == i)
    && (forall p :: p in l.at ==> l.at[p] < |nodes| && l.paths[l.at[p]] == p)
    && (forall i :: 0 <= i < |nodes| ==> nodes[i].Key() == KeyOf(l.paths[i]))
    && (forall i :: 0 <= i < |nodes| ==> UpLink(nodes, l, i))
    && (forall i, k :: 0 <= i < |nodes| && k in nodes[i].children ==> DownLink(nodes, l, i, k))
  }

  ghost predicate UpLink(nodes: seq<StackNode>, l: Layout, i: nat)
    requires i < |nodes| == |l.paths|
  {
    if l.paths[i] == [] then nodes[i].parent == Null
    else
      && nodes[i].parent.To? && nodes[i].parent.address < |nodes|
      && l.paths[nodes[i].parent.address] == Parent(l.paths[i])
      && Last(l.paths[i]) in nodes[nodes[i].parent.address].children
  }

  ghost predicate DownLink(nodes: seq<StackNode>, l: Layout, i: nat, k: Key)
    requires i < |nodes| == |l.paths| && k in nodes[i].children
  {
    nodes[i].children[k] < |nodes| && l.paths[nodes[i].children[k]] == l.paths[i] + [k]
  }

  ghost function ViewOf(nodes: seq<StackNode>, l: Layout): Tree {
    map p | p in l.at && l.at[p] < |nodes| :: nodes[l.at[p]].data
  }

  /** A child is found under its key exactly when its path is in the tree. */
  lemma ChildIsNode(nodes: seq<StackNode>, l: Layout, i: nat, k: Key)
    requires Linked(nodes, l) && i < |nodes|
    ensures k in nodes[i].children <==> l.paths[i] + [k] in l.at
    ensures k in nodes[i].children ==> nodes[i].children[k] == l.at[l.paths[i] + [k]]
  {
    var c := l.paths[i] + [k];
    ParentOfChild(l.paths[i], k);
    if k in nodes[i].children {
      assert DownLink(nodes, l, i, k);
    }
    if c in l.at {
      assert UpLink(nodes, l, l.at[c]);
    }
  }

  lemma ViewWellFormed(nodes: seq<StackNode>, l: Layout)
    requires Linked(nodes, l)
    ensures WellFormed(ViewOf(nodes, l)) && ViewOf(nodes, l).Keys == l.at.Keys
  {
    forall p {:trigger Parent(p)} | p in l.at && p != [] ensures Parent(p) in l.at {
      assert UpLink(nodes, l, l.at[p]);
    }
  }

  ghost function Grown(nodes: seq<StackNode>, i: nat, k: Key): seq<StackNode>
    requires i < |nodes|
  {
    nodes[i := nodes[i].(children := nodes[i].children[k := |nodes|])]
      + [StackNode(To(i), k.name, k.kind, map[], NEW_NODE)]
  }

  ghost function GrownLayout(l: Layout, i: nat, k: Key): Layout
    requires i < |l.paths|
  {
    Layout(l.paths + [l.paths[i] + [k]], l.at[l.paths[i] + [k] := |l.paths|])
  }

  /** Hanging a new node below another gives a tree again. */
  lemma LinkedGrows(nodes: seq<StackNode>, l: Layout, i: nat, k: Key)
    requires Linked(nodes, l) && i < |nodes| && k !in nodes[i].children
    ensures Linked(Grown(nodes, i, k), GrownLayout(l, i, k))
  {
    hide ViewOf;
    var c, nodes', l' := l.paths[i] + [k], Grown(nodes, i, k), GrownLayout(l, i, k);
    ChildIsNode(nodes, l, i, k);
    ParentOfChild(l.paths[i], k);
    forall j | 0 <= j < |nodes'| ensures UpLink(nodes', l', j) {
      if j < |nodes| { assert UpLink(nodes, l, j); }
    }
    forall j, m | 0 <= j < |nodes'| && m in nodes'[j].children ensures DownLink(nodes', l', j, m) {
      if j < |nodes| && !(j == i && m == k) { assert DownLink(nodes, l, j, m); }
    }
  }

  lemma ViewGrows(nodes: seq<StackNode>, l: Layout, i: nat, k: Key)
    requires Linked(nodes, l) && i < |nodes| && k !in nodes[i].children
    ensures ViewOf(Grown(nodes, i, k), GrownLayout(l, i, k)) == EnsureChild(ViewOf(nodes, l), l.paths[i], k)
  {
    hide UpLink, DownLink;
    ChildIsNode(nodes, l, i, k);
    var c, nodes', l' := l.paths[i] + [k], Grown(nodes, i, k), GrownLayout(l, i, k);
    forall p | p in l.at ensures nodes'[l'.at[p]].data == nodes[l.at[p]].data {
    }
  }

  /** Changing the data of one node changes the view at its path and keeps the links. */
  lemma LinkedUpdate(nodes: seq<StackNode>, l: Layout, i: nat, d: Data)
    requires Linked(nodes, l) && i < |nodes|
    ensures Linked(nodes[i := nodes[i].(data := d)], l)
    ensures ViewOf(nodes[i := nodes[i].(data := d)], l) == ViewOf(nodes, l)[l.paths[i] := d]
  {
    var nodes' := nodes[i := nodes[i].(data := d)];
    forall j | 0 <= j < |nodes'| ensures UpLink(nodes', l, j) { assert UpLink(nodes, l, j); }
    forall j, m | 0 <= j < |nodes'| && m in nodes'[j].children ensures DownLink(nodes', l, j, m) {
      assert DownLink(nodes, l, j, m);
    }
  }

  /** Only data changed: same nodes, same links. */
  predicate SameShape(nodes: seq<StackNode>, nodes': seq<StackNode>) {
    && |nodes| == |nodes'|
    && forall i :: 0 <= i < |nodes| ==> nodes'[i] == nodes[i].(data := nodes'[i].data)
  }

  class StackTree {
    var nodes: seq<StackNode>
    ghost var layout: Layout

    ghost predicate Valid()
      reads this
    {
      Linked(nodes, layout)
    }

    ghost function View(): Tree
      reads this
    {
      ViewOf(nodes, layout)
    }

    ghost function PathAt(i: nat): Path
      requires Valid() && i < |nodes|
      reads this
    {
      layout.paths[i]
    }

    /** A node's fields are what the tree holds at its path. */
    lemma AtNode(i: nat)
      requires Valid() && i < |nodes|
      ensures PathAt(i) in View() && View()[PathAt(i)] == nodes[i].data
      ensures nodes[i].Key() == KeyOf(PathAt(i)) && View().Keys == layout.at.Keys
    {
    }

    lemma AtChild(i: nat, k: Key)
      requires Valid() && i < |nodes|
      ensures k in nodes[i].children <==> PathAt(i) + [k] in View()
      ensures k in nodes[i].children ==>
        nodes[i].children[k] < |nodes| && PathAt(nodes[i].children[k]) == PathAt(i) + [k]
    {
      ChildIsNode(nodes, layout, i, k);
    }

    /** A lone root. */
    constructor ()
      ensures Valid() && View() == map[[] := NEW_NODE] && PathAt(0) == []
    {
      nodes := [StackNode(Null, "", Region, map[], NEW_NODE)];
      layout := Layout([[]], map[[] := 0]);
    }

    method GetChild(i: nat, childName: string, childKind: StackKind) returns (child: nat)
      requires Valid() && i < |nodes|
      modifies this
      ensures Valid() && |nodes| >= |old(nodes)| && child < |nodes|
      ensures forall j :: 0 <= j < |old(nodes)| ==> PathAt(j) == old(PathAt(j))
      ensures PathAt(child) == old(PathAt(i)) + [Key(childKind, childName)]
      ensures View() == EnsureChild(old(View()), old(PathAt(i)), Key(childKind, childName))
    {
      var candidate := Key(childKind, childName);
      ChildIsNode(nodes, layout, i, candidate);
      if candidate in nodes[i].children {
        child := nodes[i].children[candidate];
      } else {
        LinkedGrows(nodes, layout, i, candidate);
        ViewGrows(nodes, layout, i, candidate);
        child := |nodes|;
        nodes := nodes[i := nodes[i].(children := nodes[i].children[candidate := child])]
          + [StackNode(To(i), childName, childKind, map[], NEW_NODE)];
        layout := GrownLayout(layout, i, candidate);
      }
    }

    method SetData(i: nat, d: Data)
      requires Valid() && i < |nodes|
      modifies `nodes
      ensures Valid() && SameShape(old(nodes), nodes) && nodes[i].data == d
      ensures View() == old(View())[PathAt(i) := d]
    {
      LinkedUpdate(nodes, layout, i, d);
      nodes := nodes[i := nodes[i].(data := d)];
    }

    method Begin(i: nat, now: int)
      requires Valid() && i < |nodes|
      modifies `nodes
      ensures Valid() && SameShape(old(nodes), nodes)
      ensures PathAt(i) in old(View())
      ensures View() == old(View())[PathAt(i) := Begun(old(View())[PathAt(i)], KeyOf(PathAt(i)).kind, now)]
    {
      hide Linked, ViewOf;
      AtNode(i);
      var d, kind := nodes[i].data, nodes[i].kind;
      d := d.(numberOfCalls := d.numberOfCalls + 1);
      if kind == For || kind == Reduce || kind == Scan || kind == Copy {
        d := d.(totalNumberOfKernelCalls := d.totalNumberOfKernelCalls + 1);
      }
      d := d.(startTime := now);
      SetData(i, d);
    }

    method End(i: nat, endTime: int)
      requires Valid() && i < |nodes|
      modifies `nodes
      ensures Valid() && SameShape(old(nodes), nodes)
      ensures PathAt(i) in old(View())
      ensures View() == old(View())[PathAt(i) := Ended(old(View())[PathAt(i)], endTime)]
    {
      hide Linked, ViewOf;
      AtNode(i);
      var d := nodes[i].data;
      var runtime := endTime - d.startTime;
      SetData(i, d.(totalRuntime := d.totalRuntime + runtime));
    }

    /** Sums over the whole subtree, children first. */
    method Adopt(i: nat)
      requires Valid() && i < |nodes|
      modifies `nodes
      ensures Valid() && SameShape(old(nodes), nodes)
      ensures View() == AdoptedBelow(old(View()), PathAt(i))
      decreases Subtree(View(), PathAt(i))
    {
      hide Linked, AdoptedPartly, AdoptedBelow, ViewOf;
      ghost var t, p := View(), PathAt(i);
      var todo := nodes[i].children.Keys;
      AtNode(i);
      BelowThroughChildren(nodes, layout, i);
      AdoptedStart(t, p, todo);
      if nodes[i].kind != Region {
        var d := nodes[i].data;
        SetData(i, d.(totalKokkosRuntime := d.totalKokkosRuntime + d.totalRuntime));
      }
      while todo != {}
        invariant Valid() && SameShape(old(nodes), nodes)
        invariant todo <= nodes[i].children.Keys
        invariant View() == AdoptedPartly(t, p, todo)
        decreases todo
      {
        var k :| k in todo;
        var child := nodes[i].children[k];
        AtChild(i, k);
        AtNode(i);
        ChildSubtree(t, View(), p, k);
        Adopt(child);
        AtNode(i);
        AtNode(child);
        var d, c := nodes[i].data, nodes[child].data;
        SetData(i, d.(totalKokkosRuntime := d.totalKokkosRuntime + c.totalKokkosRuntime,
                      totalNumberOfKernelCalls := d.totalNumberOfKernelCalls + c.totalNumberOfKernelCalls));
        AdoptedChild(t, p, todo, k);
        todo := todo - {k};
      }
      AdoptedEnd(t, p);
    }

    /** The bottom-up tree, in a tree of its own. */
    method Invert() returns (inv: StackTree)
      requires Valid()
      ensures fresh(inv) && inv.Valid()
      ensures inv.View() == Inverted(View())
    {
      hide Linked, ViewOf, InvertedPart, Frontier, WeightsOf;
      ghost var t, done := View(), {};
      inv := new StackTree();
      var q := [0];
      ghost var paths := [[]];
      ViewWellFormed(nodes, layout);
      AtRoot();
      FrontierStart(t);
      InvertedNone(WeightsOf(t));
      while q != []
        invariant inv.Valid() && fresh(inv)
        invariant Queued(q, paths)
        invariant Frontier(t, done, paths)
        invariant inv.View() == InvertedPart(WeightsOf(t), done)
        decreases t.Keys - done
      {
        var node := q[0];
        ghost var here, kids := PathAt(node), [];
        var share;
        q, share, kids := PushChildren(node, q[1..], paths[1..]);
        FrontierStep(t, done, paths, kids);
        CreditCallers(node, share, inv);
        WholeWalk(WeightsOf(t), done, here);
        paths, done := paths[1..] + kids, done + {here};
      }
      FrontierEnd(t, done);
    }

    /** The queue holds the addresses of these paths. */
    ghost predicate Queued(q: seq<nat>, paths: seq<Path>)
      requires Valid()
      reads this
    {
      |q| == |paths| && forall j :: 0 <= j < |q| ==> q[j] < |nodes| && PathAt(q[j]) == paths[j]
    }

    /** Queues the children of a node and takes their times off its own. */
    method PushChildren(node: nat, q: seq<nat>, ghost paths: seq<Path>)
      returns (q': seq<nat>, share: Share, ghost kids: seq<Path>)
      requires Valid() && node < |nodes| && Queued(q, paths)
      ensures Queued(q', paths + kids) && Lists(View(), PathAt(node), kids)
      ensures share == ShareOf(WeightsOf(View()), PathAt(node))
    {
      hide Linked, ViewOf, TotalAt, KokkosAt, WeightsOf, Parent, Last, Children, AllBut;
      ghost var t, p, seen: set<Path> := View(), PathAt(node), {};
      AtNode(node);
      NoneSeen(node);
      var selfTime, selfKokkosTime := nodes[node].data.totalRuntime, nodes[node].data.totalKokkosRuntime;
      q', kids := q, [];
      var todo := nodes[node].children.Keys;
      while todo != {}
        invariant todo <= nodes[node].children.Keys
        invariant Queued(q', paths + kids)
        invariant NoDuplicates(kids) && (forall c :: c in kids <==> c in seen)
        invariant AllBut(t, p, todo, seen)
        invariant selfTime == t[p].totalRuntime - Sum(seen, TotalAt(t))
        invariant selfKokkosTime == t[p].totalKokkosRuntime - Sum(seen, KokkosAt(t))
      {
        var k :| k in todo;
        var child := nodes[node].children[k];
        AtChild(node, k);
        AtNode(child);
        OneLess(t, p, todo, seen, k);
        ghost var c := p + [k];
        selfTime := selfTime - nodes[child].data.totalRuntime;
        selfKokkosTime := selfKokkosTime - nodes[child].data.totalKokkosRuntime;
        q' := q' + [child];
        OneMore(t, seen, c);
        kids, seen, todo := kids + [c], seen + {c}, todo - {k};
      }
      AllSeen(t, p, seen);
      selfTime := if selfTime < 0 then 0 else selfTime;
      selfKokkosTime := if selfKokkosTime < 0 then 0 else selfKokkosTime;
      share := Share(selfTime, selfKokkosTime, nodes[node].data.numberOfCalls);
      OwnShare(t, p);
    }

    /** The children of a node in the tree are those in its child set. */
    lemma NoneSeen(node: nat)
      requires Valid() && node < |nodes|
      ensures AllBut(View(), PathAt(node), nodes[node].children.Keys, {})
    {
      forall c | c in Children(View(), PathAt(node)) ensures Last(c) in nodes[node].children {
        AtChild(node, Last(c));
        assert PathAt(node) + [Last(c)] == c;
      }
    }

    /** Walks from a node up to the root, and credits the node's share to the bottom-up nodes on that walk. */
    method CreditCallers(start: nat, share: Share, inv: StackTree)
      requires Valid() && start < |nodes| && inv.Valid() && inv != this
      modifies inv
      ensures inv.Valid()
      ensures [] in old(inv.View()) && inv.View() == WalkUp(old(inv.View()), PathAt(start), |PathAt(start)| + 1, share)
    {
      hide Linked, ViewOf, WalkUp, StepAt, CreditChild;
      ghost var t, path, n := inv.View(), PathAt(start), 0;
      inv.AtRoot();
      var invNode: nat, node := 0, To(start);
      inv.AddShare(invNode, share);
      WalkUpStart(t, path, share);
      while node != Null
        invariant inv.Valid() && invNode < |inv.nodes|
        invariant n <= |path| + 1 && (node == Null <==> n == |path| + 1)
        invariant node != Null ==> node.address < |nodes| && PathAt(node.address) == Ancestor(path, n)
        invariant inv.PathAt(invNode) == StepAt(path, n)
        invariant inv.View() == WalkUp(t, path, n, share)
        decreases |path| + 1 - n
      {
        AtParent(node.address);
        AtNode(node.address);
        WalkUpNext(t, path, n, share);
        invNode := inv.CreditNext(invNode, nodes[node.address].name, nodes[node.address].kind, share);
        node, n := nodes[node.address].parent, n + 1;
      }
    }

    lemma AtRoot()
      requires Valid()
      ensures 0 < |nodes| && PathAt(0) == [] && [] in View()
    {
    }

    lemma AtParent(i: nat)
      requires Valid() && i < |nodes|
      ensures PathAt(i) == [] <==> nodes[i].parent == Null
      ensures PathAt(i) != [] ==>
        nodes[i].parent.address < |nodes| && PathAt(nodes[i].parent.address) == Parent(PathAt(i))
    {
      assert UpLink(nodes, layout, i);
    }

    /** One step of that walk. */
    method CreditNext(i: nat, childName: string, childKind: StackKind, share: Share) returns (child: nat)
      requires Valid() && i < |nodes|
      modifies this
      ensures Valid() && child < |nodes| && PathAt(child) == old(PathAt(i)) + [Key(childKind, childName)]
      ensures View() == CreditChild(old(View()), old(PathAt(i)), Key(childKind, childName), share)
    {
      hide Linked, ViewOf;
      child := GetChild(i, childName, childKind);
      AddShare(child, share);
    }

    method AddShare(i: nat, share: Share)
      requires Valid() && i < |nodes|
      modifies `nodes
      ensures Valid() && |nodes| == |old(nodes)| && PathAt(i) in old(View())
      ensures View() == old(View())[PathAt(i) := Credit(old(View())[PathAt(i)], share)]
    {
      hide Linked, ViewOf;
      AtNode(i);
      var d := nodes[i].data;
      SetData(i, d.(totalRuntime := d.totalRuntime + share.time,
                    numberOfCalls := d.numberOfCalls + share.calls,
                    totalKokkosRuntime := d.totalKokkosRuntime + share.kokkos));
    }

    /** Without MPI every node's largest and average time are its own. */
    method ReduceLocally()
      requires Valid()
      modifies `nodes
      ensures Valid() && SameShape(old(nodes), nodes)
      ensures View() == ReducedAlone(old(View()), old(View()).Keys)
    {
      hide Linked, ViewOf, Frontier, ReducedAlone, Lists, ShareOf;
      ghost var t, done, paths := View(), {}, [[]];
      var q := [0];
      ViewWellFormed(nodes, layout);
      AtRoot();
      FrontierStart(t);
      AloneStart(t);
      while q != []
        invariant Valid() && SameShape(old(nodes), nodes)
        invariant Queued(q, paths)
        invariant Frontier(t, done, paths)
        invariant View() == ReducedAlone(t, done) && View().Keys == t.Keys
        decreases t.Keys - done
      {
        var node := q[0];
        ghost var here, kids := PathAt(node), [];
        var share;
        AtNode(node);
        q, share, kids := PushChildren(node, q[1..], paths[1..]);
        ListsByKeys(t, View(), here, kids);
        FrontierStep(t, done, paths, kids);
        AloneStep(t, done, here);
        var d := nodes[node].data;
        SetData(node, d.(maxRuntime := d.totalRuntime, avgRuntime := d.totalRuntime as real));
        paths, done := paths[1..] + kids, done + {here};
      }
      FrontierEnd(t, done);
    }
  }

  /** Every node below another is reached through one of its children. */
  lemma BelowThroughChildren(nodes: seq<StackNode>, l: Layout, i: nat)
    requires Linked(nodes, l) && i < |nodes|
    ensures forall q :: q in l.at && l.paths[i] <= q && q != l.paths[i] ==> q[|l.paths[i]|] in nodes[i].children
  {
    var p := l.paths[i];
    forall q | q in l.at && p <= q && q != p ensures q[|p|] in nodes[i].children {
      ViewWellFormed(nodes, l);
      PrefixClosed(ViewOf(nodes, l), q, q[..|p| + 1]);
      assert q[..|p| + 1] == p + [q[|p|]];
      ChildIsNode(nodes, l, i, q[|p|]);
    }
  }

  lemma ChildSubtree(t: Tree, u: Tree, p: Path, k: Key)
    requires p in t && t.Keys == u.Keys
    ensures Subtree(u, p + [k]) < Subtree(t, p)
  {
    assert p in Subtree(t, p) && p !in Subtree(u, p + [k]);
  }

  lemma ListsByKeys(t: Tree, u: Tree, p: Path, kids: seq<Path>)
    requires t.Keys == u.Keys
    ensures Lists(t, p, kids) == Lists(u, p, kids)
  {
    assert Children(t, p) == Children(u, p);
  }
}
