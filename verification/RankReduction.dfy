/** `reduce_over_mpi` as one rank runs it: loops over collectives that change the tree in place. */
module RankReduction {
  import opened CallTree
  import opened Mpi
  import opened Reduction
  import opened StackTrees
  import Orders

  /** The library as one rank sees it: it takes collectives and delivers their results, one after the other. */
  class Communicator {
    const rank: nat
    const size: nat
    const results: nat -> Value
    var issued: seq<Issue>

    ghost predicate Valid()
      reads this
    {
      rank < size
    }

    constructor (rank: nat, size: nat, results: nat -> Value)
      requires rank < size
      ensures Valid() && this.rank == rank && this.size == size && this.results == results && issued == []
    {
      this.rank, this.size, this.results, issued := rank, size, results, [];
    }

    method Reduce(op: Op, elements: Type, v: Value) returns (result: Value)
      modifies this
      ensures issued == old(issued) + [Issue(Allreduce(op, 1, elements), v)]
      ensures result == results(|old(issued)|)
    {
      result := results(|issued|);
      issued := issued + [Issue(Allreduce(op, 1, elements), v)];
    }

    method Broadcast(root: nat, count: nat, elements: Type, v: Value) returns (result: Value)
      modifies this
      ensures issued == old(issued) + [Issue(Bcast(root, count, elements), if rank == root then v else Number(0))]
      ensures result == results(|old(issued)|)
    {
      result := results(|issued|);
      issued := issued + [Issue(Bcast(root, count, elements), if rank == root then v else Number(0))];
    }
  }

  // ---- What the loops keep ----

  /** From `p` to `p'` exactly the collectives of the rank's program were issued, and nothing else. */
  ghost predicate Went(before: seq<Issue>, after: seq<Issue>, results: nat -> Value, p: Process, p': Process) {
    && |before| <= |after|
    && p' == Follow(p, results, |before|, |after| - |before|)
    && after == before + Issues(p, results, |before|, |after| - |before|)
  }

  lemma WentNowhere(issued: seq<Issue>, results: nat -> Value, p: Process)
    ensures Went(issued, issued, results, p, p)
  {
  }

  lemma WentOne(before: seq<Issue>, results: nat -> Value, p: Process)
    ensures Went(before, before + [IssueOf(p)], results, p, Resume(p, results(|before|)))
  {
    hide Resume, IssueOf;
    assert Follow(p, results, |before|, 0) == p;
    assert Issues(p, results, |before|, 0) == [];
  }

  lemma WentOn(a: seq<Issue>, b: seq<Issue>, c: seq<Issue>, results: nat -> Value, p: Process, q: Process, r: Process)
    requires Went(a, b, results, p, q) && Went(b, c, results, q, r)
    ensures Went(a, c, results, p, r) && |a| <= |b| <= |c|
  {
    hide Follow, Issues;
    FollowOn(p, results, |a|, |b| - |a|, |c| - |b|);
  }

  /** The tree, the queue and the current node in memory are those of the rank's program. */
  ghost predicate Holds(tree: StackTree, comm: Communicator, node: nat, q: seq<nat>, p: Process)
    reads tree, comm
  {
    && tree.Valid() && tree.View() == p.tree && tree.Queued(q, p.queue)
    && node < |tree.nodes| && tree.PathAt(node) == p.node
    && comm.rank == p.rank && comm.size == p.size && p.rank < p.size
  }

  // ---- The four reductions of a node ----

  /** One reduction into one field of the node. */
  method Accumulate(tree: StackTree, comm: Communicator, node: nat, q: seq<nat>, op: Op, v: Value, ghost p: Process)
    returns (result: Value, ghost p': Process)
    requires Holds(tree, comm, node, q, p)
    requires IssueOf(p) == Issue(Allreduce(op, 1, DoubleType), v)
    modifies comm
    ensures Holds(tree, comm, node, q, p) && result == comm.results(|old(comm.issued)|)
    ensures p' == Resume(p, result) && Went(old(comm.issued), comm.issued, comm.results, p, p')
  {
    hide Resume, IssueOf, Went;
    WentOne(comm.issued, comm.results, p);
    result := comm.Reduce(op, DoubleType, v);
    p' := Resume(p, result);
  }

  method Store(tree: StackTree, comm: Communicator, node: nat, q: seq<nat>, d: Data, ghost p: Process, ghost pc: Pc)
    requires Holds(tree, comm, node, q, p)
    modifies tree`nodes
    ensures Holds(tree, comm, node, q, SetNode(p, d, pc))
    ensures SameShape(old(tree.nodes), tree.nodes) && tree.nodes[node].data == d
  {
    hide Linked, ViewOf;
    tree.SetData(node, d);
  }

  lemma NodeData(tree: StackTree, comm: Communicator, node: nat, q: seq<nat>, p: Process)
    requires Holds(tree, comm, node, q, p)
    ensures tree.nodes[node].data == At(p.tree, p.node)
  {
    hide Linked, ViewOf;
    tree.AtNode(node);
  }

  lemma Sums(p: Process, v: Value)
    ensures p.pc.SumTotal? ==>
      Resume(p, v) == SetNode(p, At(p.tree, p.node).(totalRuntime := IntOf(v)), MaxRuntime)
      && IssueOf(p) == Issue(Allreduce(SumOp, 1, DoubleType), Number(At(p.tree, p.node).totalRuntime))
    ensures p.pc.MaxRuntime? ==>
      Resume(p, v) == SetNode(p, At(p.tree, p.node).(maxRuntime := IntOf(v)), SumAvg)
      && IssueOf(p) == Issue(Allreduce(MaxOp, 1, DoubleType), Number(At(p.tree, p.node).maxRuntime))
    ensures p.pc.SumAvg? && p.size > 0 ==>
      Resume(p, v) == SetNode(p, At(p.tree, p.node).(avgRuntime := RealOf(v) / p.size as real), SumKokkos)
      && IssueOf(p) == Issue(Allreduce(SumOp, 1, DoubleType), Ratio(At(p.tree, p.node).avgRuntime))
    ensures p.pc.SumKokkos? ==>
      var q := SetNode(p, At(p.tree, p.node).(totalKokkosRuntime := IntOf(v)), BcastCount);
      Resume(p, v) == q.(pending := ChildKeys(q.tree, q.node), root := 0)
      && IssueOf(p) == Issue(Allreduce(SumOp, 1, DoubleType), Number(At(p.tree, p.node).totalKokkosRuntime))
  {
  }

  lemma SameHolds(tree: StackTree, comm: Communicator, node: nat, q: seq<nat>, p: Process, p': Process)
    requires Holds(tree, comm, node, q, p)
    requires p'.tree == p.tree && p'.queue == p.queue && p'.node == p.node && p'.rank == p.rank && p'.size == p.size
    ensures Holds(tree, comm, node, q, p')
  {
  }

  /** The total and the largest time. */
  method SumTimes(tree: StackTree, comm: Communicator, node: nat, q: seq<nat>, ghost p: Process)
    returns (ghost p': Process)
    requires Holds(tree, comm, node, q, p) && p.pc.SumTotal?
    modifies tree`nodes, comm
    ensures Holds(tree, comm, node, q, p') && p'.pc.SumAvg?
    ensures Went(old(comm.issued), comm.issued, comm.results, p, p')
    ensures SameShape(old(tree.nodes), tree.nodes)
  {
    hide Linked, ViewOf, Went, Resume, IssueOf;
    ghost var before := comm.issued;
    NodeData(tree, comm, node, q, p);
    var v;
    Sums(p, comm.results(|comm.issued|));
    v, p' := Accumulate(tree, comm, node, q, SumOp, Number(tree.nodes[node].data.totalRuntime), p);
    Store(tree, comm, node, q, tree.nodes[node].data.(totalRuntime := IntOf(v)), p, MaxRuntime);
    ghost var between, p1 := comm.issued, p';
    NodeData(tree, comm, node, q, p1);
    Sums(p1, comm.results(|comm.issued|));
    v, p' := Accumulate(tree, comm, node, q, MaxOp, Number(tree.nodes[node].data.maxRuntime), p1);
    Store(tree, comm, node, q, tree.nodes[node].data.(maxRuntime := IntOf(v)), p1, SumAvg);
    WentOn(before, between, comm.issued, comm.results, p, p1, p');
  }

  /** The average and the Kokkos time. */
  method SumOthers(tree: StackTree, comm: Communicator, node: nat, q: seq<nat>, ghost p: Process)
    returns (ghost p': Process)
    requires Holds(tree, comm, node, q, p) && p.pc.SumAvg?
    modifies tree`nodes, comm
    ensures Holds(tree, comm, node, q, p') && p'.pc.BcastCount?
    ensures p'.pending == ChildKeys(p'.tree, p'.node) && p'.root == 0
    ensures Went(old(comm.issued), comm.issued, comm.results, p, p')
    ensures SameShape(old(tree.nodes), tree.nodes)
  {
    hide Linked, ViewOf, Went, Resume, IssueOf;
    ghost var before := comm.issued;
    NodeData(tree, comm, node, q, p);
    var v;
    Sums(p, comm.results(|comm.issued|));
    v, p' := Accumulate(tree, comm, node, q, SumOp, Ratio(tree.nodes[node].data.avgRuntime), p);
    Store(tree, comm, node, q, tree.nodes[node].data.(avgRuntime := RealOf(v) / comm.size as real), p, SumKokkos);
    ghost var between, p1 := comm.issued, p';
    NodeData(tree, comm, node, q, p1);
    Sums(p1, comm.results(|comm.issued|));
    v, p' := Accumulate(tree, comm, node, q, SumOp, Number(tree.nodes[node].data.totalKokkosRuntime), p1);
    ghost var d := tree.nodes[node].data.(totalKokkosRuntime := IntOf(v));
    Store(tree, comm, node, q, tree.nodes[node].data.(totalKokkosRuntime := IntOf(v)), p1, BcastCount);
    SameHolds(tree, comm, node, q, SetNode(p1, d, BcastCount), p');
    WentOn(before, between, comm.issued, comm.results, p, p1, p');
  }

  // ---- The exchange of children ----

  lemma Children(p: Process, v: Value)
    requires p.rank < p.size
    ensures p.pc.BcastCount? ==>
      IssueOf(p) == Issue(Bcast(p.root, 1, IntType), if p.rank == p.root then Number(|p.pending|) else Number(0))
      && Resume(p, v) == NextChild(
           if p.rank == p.root then p.(toSend := Listing(p.pending), left := |p.pending|)
           else p.(left := if IntOf(v) < 0 then 0 else IntOf(v)))
    ensures p.pc.BcastLength? ==>
      IssueOf(p) == Issue(Bcast(p.root, 1, IntType), if p.rank == p.root then Number(|NextKey(p).name|) else Number(0))
      && Resume(p, v) == p.(pc := BcastName,
           nameLen := if p.rank == p.root then |NextKey(p).name| else if IntOf(v) < 0 then 0 else IntOf(v))
    ensures p.pc.BcastName? ==>
      IssueOf(p)
        == Issue(Bcast(p.root, p.nameLen, CharType), if p.rank == p.root then Text(NextKey(p).name) else Number(0))
      && Resume(p, v) == p.(pc := BcastKind, name := if p.rank == p.root then NextKey(p).name else TextOf(v))
    ensures p.pc.BcastKind? ==>
      IssueOf(p) == Issue(Bcast(p.root, 1, IntType),
        if p.rank == p.root then Number(Orders.Rank(NextKey(p).kind)) else Number(0))
  {
  }

  /** What the kind completes: the child is entered and queued. */
  ghost function WithChild(p: Process, key: Key): Process {
    p.(tree := EnsureChild(p.tree, p.node, key), queue := p.queue + [p.node + [key]],
       left := if p.left > 0 then p.left - 1 else 0)
  }

  lemma KindCompletes(p: Process, v: Value)
    requires p.pc.BcastKind?
    ensures p.rank == p.root ==>
      Resume(p, v) == NextChild(WithChild(p, NextKey(p)).(toSend := if p.toSend == [] then [] else p.toSend[1..]))
    ensures p.rank != p.root ==>
      var key := Key(KindOf(IntOf(v)), p.name);
      Resume(p, v) == NextChild(WithChild(p, key).(pending := p.pending - {key}))
  {
  }

  /** A child is looked up or created, and queued. */
  method Enter(tree: StackTree, comm: Communicator, node: nat, q: seq<nat>, key: Key, ghost p: Process)
    returns (q': seq<nat>)
    requires Holds(tree, comm, node, q, p)
    modifies tree
    ensures Holds(tree, comm, node, q', WithChild(p, key))
  {
    hide Linked, ViewOf;
    var child := tree.GetChild(node, key.name, key.kind);
    q' := q + [child];
  }

  /** The broadcaster sends one child. */
  method SendChild(tree: StackTree, comm: Communicator, node: nat, q: seq<nat>, root: nat, key: Key, ghost p: Process)
    returns (q': seq<nat>, ghost p': Process)
    requires Holds(tree, comm, node, q, p) && p.pc.BcastLength? && p.root == root == p.rank
    requires p.left == |p.toSend| > 0 && p.toSend[0] == key
    modifies tree, comm
    ensures Holds(tree, comm, node, q', p')
    ensures p' == NextChild(WithChild(p.(nameLen := |key.name|, name := key.name), key).(toSend := p.toSend[1..]))
    ensures Went(old(comm.issued), comm.issued, comm.results, p, p')
  {
    hide Linked, ViewOf, Went, Resume, IssueOf;
    ghost var a := comm.issued;
    var nameLen, kind := |key.name|, Orders.Rank(key.kind);
    Children(p, comm.results(|comm.issued|));
    WentOne(comm.issued, comm.results, p);
    var v := comm.Broadcast(root, 1, IntType, Number(nameLen));
    ghost var p1, b := Resume(p, v), comm.issued;
    Children(p1, comm.results(|comm.issued|));
    WentOne(comm.issued, comm.results, p1);
    v := comm.Broadcast(root, nameLen, CharType, Text(key.name));
    ghost var p2, c := Resume(p1, v), comm.issued;
    WentOn(a, b, c, comm.results, p, p1, p2);
    Children(p2, comm.results(|comm.issued|));
    KindCompletes(p2, comm.results(|comm.issued|));
    WentOne(comm.issued, comm.results, p2);
    v := comm.Broadcast(root, 1, IntType, Number(kind));
    p' := Resume(p2, v);
    WentOn(a, c, comm.issued, comm.results, p, p2, p');
    SameHolds(tree, comm, node, q, p, p2);
    q' := Enter(tree, comm, node, q, key, p2);
    SameHolds(tree, comm, node, q', WithChild(p2, key), p');
  }

  /** The other ranks receive one child. */
  method ReceiveChild(tree: StackTree, comm: Communicator, node: nat, q: seq<nat>, root: nat, pending: set<Key>,
      ghost p: Process)
    returns (q': seq<nat>, pending': set<Key>, ghost p': Process)
    requires Holds(tree, comm, node, q, p) && p.pc.BcastLength? && p.root == root != p.rank
    requires p.left > 0 && p.pending == pending
    modifies tree, comm
    ensures Holds(tree, comm, node, q', p') && p'.pending == pending' && p'.root == root
    ensures p'.left == p.left - 1 && p'.pc == if p'.left > 0 then BcastLength else NextRoot
    ensures Went(old(comm.issued), comm.issued, comm.results, p, p')
  {
    hide Linked, ViewOf, Went, Resume, IssueOf;
    ghost var a := comm.issued;
    Children(p, comm.results(|comm.issued|));
    WentOne(comm.issued, comm.results, p);
    var v := comm.Broadcast(root, 1, IntType, Number(0));
    var nameLen := if IntOf(v) < 0 then 0 else IntOf(v);
    ghost var p1, b := Resume(p, v), comm.issued;
    Children(p1, comm.results(|comm.issued|));
    WentOne(comm.issued, comm.results, p1);
    v := comm.Broadcast(root, nameLen, CharType, Number(0));
    var name := TextOf(v);
    ghost var p2, c := Resume(p1, v), comm.issued;
    WentOn(a, b, c, comm.results, p, p1, p2);
    Children(p2, comm.results(|comm.issued|));
    KindCompletes(p2, comm.results(|comm.issued|));
    WentOne(comm.issued, comm.results, p2);
    v := comm.Broadcast(root, 1, IntType, Number(0));
    var key := Key(KindOf(IntOf(v)), name);
    p' := Resume(p2, v);
    WentOn(a, c, comm.issued, comm.results, p, p2, p');
    SameHolds(tree, comm, node, q, p, p2);
    q' := Enter(tree, comm, node, q, key, p2);
    SameHolds(tree, comm, node, q', WithChild(p2, key), p');
    pending' := pending - {key};
  }

  /** One round: the broadcaster sends all it has left, the others receive. */
  method Round(tree: StackTree, comm: Communicator, node: nat, q: seq<nat>, root: nat, pending: set<Key>,
      ghost p: Process)
    returns (q': seq<nat>, pending': set<Key>, ghost p': Process)
    requires Holds(tree, comm, node, q, p) && p.pc.BcastCount? && p.root == root && p.pending == pending
    modifies tree, comm
    ensures Holds(tree, comm, node, q', p') && p'.pc.NextRoot? && p'.root == root && p'.pending == pending'
    ensures Went(old(comm.issued), comm.issued, comm.results, p, p')
  {
    hide Linked, ViewOf, Went, Resume, IssueOf, WithChild;
    ghost var a := comm.issued;
    Children(p, comm.results(|comm.issued|));
    WentOne(comm.issued, comm.results, p);
    var v := comm.Broadcast(root, 1, IntType, Number(|pending|));
    p' := Resume(p, v);
    SameHolds(tree, comm, node, q, p, p');
    q', pending' := q, pending;
    if comm.rank == root {
      var toSend := Listing(pending);
      while toSend != []
        invariant Holds(tree, comm, node, q', p') && p'.root == root == p'.rank
        invariant p'.toSend == toSend && p'.left == |toSend|
        invariant p'.pc == (if toSend == [] then NextRoot else BcastLength) && (toSend == [] ==> p'.pending == {})
        invariant Went(a, comm.issued, comm.results, p, p')
        decreases |toSend|
      {
        ghost var b, p1 := comm.issued, p';
        q', p' := SendChild(tree, comm, node, q', root, toSend[0], p1);
        WentOn(a, b, comm.issued, comm.results, p, p1, p');
        SentChild(p1, toSend[0]);
        toSend := toSend[1..];
      }
      pending' := {};
    } else {
      var count := if IntOf(v) < 0 then 0 else IntOf(v);
      var i := 0;
      while i < count
        invariant 0 <= i <= count
        invariant Holds(tree, comm, node, q', p') && p'.root == root != p'.rank && p'.pending == pending'
        invariant p'.left == count - i && p'.pc == if i < count then BcastLength else NextRoot
        invariant Went(a, comm.issued, comm.results, p, p')
      {
        ghost var b, p1 := comm.issued, p';
        q', pending', p' := ReceiveChild(tree, comm, node, q', root, pending', p1);
        WentOn(a, b, comm.issued, comm.results, p, p1, p');
        i := i + 1;
      }
    }
  }

  lemma SentChild(p: Process, key: Key)
    requires p.toSend != [] && p.left == |p.toSend| && p.rank == p.root
    ensures var p' := NextChild(WithChild(p.(nameLen := |key.name|, name := key.name), key).(toSend := p.toSend[1..]));
      && p'.root == p.root && p'.rank == p.rank && p'.toSend == p.toSend[1..] && p'.left == |p'.toSend|
      && p'.pc == (if p'.toSend == [] then NextRoot else BcastLength) && (p'.toSend == [] ==> p'.pending == {})
  {
  }

  /** A rank that is not done has steps to go. */
  lemma StepsLeft(before: seq<Issue>, now: seq<Issue>, results: nat -> Value, p: Process, p': Process, steps: nat)
    requires Went(before, now, results, p, p') && !p'.pc.Done?
    requires Follow(p, results, |before|, steps).pc.Done?
    ensures |now| - |before| < steps
    ensures Follow(p', results, |now|, steps - (|now| - |before|)) == Follow(p, results, |before|, steps)
  {
    hide Resume, IssueOf, Issues;
    var m := |now| - |before|;
    if steps <= m {
      StaysDone(p, results, |before|, steps, m);
    } else {
      FollowOn(p, results, |before|, m, steps - m);
    }
  }

  lemma RootElected(p: Process, v: Value)
    requires p.pc.NextRoot?
    ensures IssueOf(p) == Issue(Allreduce(MinOp, 1, IntType), Number(if p.pending == {} then p.size else p.rank))
    ensures var next := if IntOf(v) < 0 then 0 else IntOf(v);
      Resume(p, v) == if next < p.size then p.(root := next, pc := BcastCount) else StartNode(p.(root := next))
  {
  }

  lemma ChildSet(tree: StackTree, i: nat)
    requires tree.Valid() && i < |tree.nodes|
    ensures tree.nodes[i].children.Keys == ChildKeys(tree.View(), tree.PathAt(i))
  {
    hide Linked, ViewOf;
    var t, p := tree.View(), tree.PathAt(i);
    forall k ensures k in tree.nodes[i].children <==> k in ChildKeys(t, p) {
      tree.AtChild(i, k);
      ParentOfChild(p, k);
      if p + [k] in t { assert p + [k] in CallTree.Children(t, p); }
      if k in ChildKeys(t, p) {
        var c :| c in CallTree.Children(t, p) && Last(c) == k;
        assert c == p + [k];
      }
    }
  }

  /** The rounds of one node: the lowest rank with children left broadcasts next, until there is none. */
  method ExchangeChildren(tree: StackTree, comm: Communicator, node: nat, q: seq<nat>, ghost p: Process,
      ghost steps: nat)
    returns (q': seq<nat>, ghost r: Process)
    requires Holds(tree, comm, node, q, p) && p.pc.BcastCount?
    requires p.pending == ChildKeys(p.tree, p.node) && p.root == 0
    requires Follow(p, comm.results, |comm.issued|, steps).pc.Done?
    modifies tree, comm
    ensures Holds(tree, comm, node, q', r)
    ensures Went(old(comm.issued), comm.issued, comm.results, p, StartNode(r))
    ensures 0 < |comm.issued| - |old(comm.issued)| <= steps
  {
    hide Linked, ViewOf, Went, Resume, IssueOf, Follow, ChildKeys, StartNode;
    ghost var a := comm.issued;
    ChildSet(tree, node);
    WentNowhere(a, comm.results, p);
    var childrenToProcess, bcastRank, again := tree.nodes[node].children.Keys, 0, true;
    q' := q;
    r := p;
    while again
      invariant Holds(tree, comm, node, q', r)
      invariant again ==> r.pc.BcastCount? && r.root == bcastRank && r.pending == childrenToProcess
      invariant Went(a, comm.issued, comm.results, p, if again then r else StartNode(r))
      invariant !again ==> 0 < |comm.issued| - |a| <= steps
      invariant |a| <= |comm.issued|
      decreases steps - (|comm.issued| - |a|)
    {
      StepsLeft(a, comm.issued, comm.results, p, r, steps);
      ghost var b, r0, r1 := comm.issued, r, r;
      q', childrenToProcess, r1 := Round(tree, comm, node, q', bcastRank, childrenToProcess, r);
      WentOn(a, b, comm.issued, comm.results, p, r0, r1);
      StepsLeft(a, comm.issued, comm.results, p, r1, steps);
      b := comm.issued;
      RootElected(r1, comm.results(|comm.issued|));
      WentOne(comm.issued, comm.results, r1);
      var localNextBcastRank := if childrenToProcess == {} then comm.size else comm.rank;
      var v := comm.Reduce(MinOp, IntType, Number(localNextBcastRank));
      WentOn(a, b, comm.issued, comm.results, p, r1, Resume(r1, v));
      bcastRank := if IntOf(v) < 0 then 0 else IntOf(v);
      again := bcastRank < comm.size;
      r := if again then r1.(root := bcastRank, pc := BcastCount) else r1.(root := bcastRank);
      SameHolds(tree, comm, node, q', r1, r);
    }
  }

  ghost function Begins(comm: Communicator, tree: StackTree): Process
    requires tree.Valid()
    reads tree, comm
  {
    StartNode(Starting(comm.rank, comm.size, tree.View()))
  }

  /** Takes a node off the queue, and makes its own time its largest and average time for now. */
  method TakeNode(tree: StackTree, comm: Communicator, q: seq<nat>, ghost r: Process) returns (node: nat, q': seq<nat>)
    requires tree.Valid() && tree.View() == r.tree && q != [] && tree.Queued(q, r.queue)
    requires comm.rank == r.rank < r.size == comm.size
    modifies tree`nodes
    ensures StartNode(r).pc.SumTotal? && Holds(tree, comm, node, q', StartNode(r))
  {
    hide Linked, ViewOf;
    node, q' := q[0], q[1..];
    tree.AtNode(node);
    var d := tree.nodes[node].data;
    tree.SetData(node, d.(commSize := comm.size, maxRuntime := d.totalRuntime, avgRuntime := d.totalRuntime as real));
  }

  lemma NothingQueued(r: Process)
    requires r.queue == []
    ensures StartNode(r).pc.Done? && StartNode(r).tree == r.tree
  {
  }

  /** The whole reduction of one rank: node by node, in place. It issues exactly the collectives of the rank's
      program and leaves exactly its tree, whatever the library delivers, as long as that lets it end. */
  method ReduceOverMpi(tree: StackTree, comm: Communicator, ghost steps: nat)
    requires tree.Valid() && comm.Valid()
    requires EndsAfter(Begins(comm, tree), comm.results, |comm.issued|, steps)
    modifies tree, comm
    ensures tree.Valid()
    ensures tree.View() == Follow(old(Begins(comm, tree)), comm.results, |old(comm.issued)|, steps).tree
    ensures comm.issued == old(comm.issued) + Issues(old(Begins(comm, tree)), comm.results, |old(comm.issued)|, steps)
  {
    hide Linked, ViewOf, Resume, IssueOf, Follow, ChildKeys, StartNode, Issues;
    ghost var a, r, start := comm.issued, Starting(comm.rank, comm.size, tree.View()), Begins(comm, tree);
    assert Went(a, a, comm.results, start, start) by {
      WentNowhere(a, comm.results, start);
    }
    hide Went;
    tree.AtRoot();
    var q := [0];
    while q != []
      invariant tree.Valid() && tree.View() == r.tree && tree.Queued(q, r.queue)
      invariant comm.rank == r.rank < r.size == comm.size
      invariant Went(a, comm.issued, comm.results, start, StartNode(r))
      invariant 0 <= |comm.issued| - |a| <= steps
      decreases steps - (|comm.issued| - |a|)
    {
      var node;
      ghost var b, p := comm.issued, StartNode(r);
      node, q := TakeNode(tree, comm, q, r);
      ghost var p1 := SumTimes(tree, comm, node, q, p);
      ghost var c := comm.issued;
      WentOn(a, b, c, comm.results, start, p, p1);
      ghost var p2 := SumOthers(tree, comm, node, q, p1);
      ghost var d := comm.issued;
      WentOn(a, c, d, comm.results, start, p1, p2);
      StepsLeft(a, d, comm.results, start, p2, steps);
      q, r := ExchangeChildren(tree, comm, node, q, p2, steps - (|d| - |a|));
      WentOn(a, d, comm.issued, comm.results, start, p2, StartNode(r));
    }
    NothingQueued(r);
    WentAll(a, comm.issued, comm.results, start, StartNode(r), steps);
  }

  lemma WentAll(a: seq<Issue>, b: seq<Issue>, results: nat -> Value, p: Process, p': Process, steps: nat)
    requires Went(a, b, results, p, p') && p'.pc.Done? && |b| - |a| <= steps
    requires EndsAfter(p, results, |a|, steps)
    ensures p' == Follow(p, results, |a|, steps) && b == a + Issues(p, results, |a|, steps)
  {
    hide Follow, Issues;
  }

  // ---- With and without MPI ----

  /** The reduction ends: at once without MPI, otherwise after `steps` collectives from the `from`-th on. */
  ghost predicate Ends(t: Tree, comm: Communicator?, from: nat, steps: nat) {
    comm != null ==> EndsAfter(StartNode(Starting(comm.rank, comm.size, t)), comm.results, from, steps)
  }

  /** What the reduction leaves of a tree on this rank. */
  ghost function AfterReduction(t: Tree, comm: Communicator?, from: nat, steps: nat): Tree {
    if comm == null then ReducedAlone(t, t.Keys)
    else Follow(StartNode(Starting(comm.rank, comm.size, t)), comm.results, from, steps).tree
  }

  ghost function IssuedBy(comm: Communicator?): nat
    reads comm
  {
    if comm == null then 0 else |comm.issued|
  }

  method ReduceTree(tree: StackTree, comm: Communicator?, ghost steps: nat)
    requires tree.Valid() && (comm != null ==> comm.Valid())
    requires Ends(tree.View(), comm, IssuedBy(comm), steps)
    modifies tree, comm
    ensures tree.Valid() && tree.View() == AfterReduction(old(tree.View()), comm, old(IssuedBy(comm)), steps)
    ensures comm != null ==> IssuedBy(comm) == old(IssuedBy(comm)) + steps
  {
    hide Linked, ViewOf, Follow, StartNode, EndsAfter, ReducedAlone;
    if comm == null {
      tree.ReduceLocally();
    } else {
      IssueCount(Begins(comm, tree), comm.results, |comm.issued|, steps);
      ReduceOverMpi(tree, comm, steps);
    }
  }
}
