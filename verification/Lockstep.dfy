/** The ranks move in step: one description of the whole communicator explains every rank's state. */
module Lockstep {
  import opened CallTree
  import opened Mpi
  import opened Reduction
  import Orders

  /** What all ranks have in common.
      `order`: every path queued so far, in queueing order; `pos`: the one being processed.
      `toSend`: the children the broadcaster `root` has still to send in this round. */
  datatype Shared = Shared(pc: Pc, order: seq<Path>, pos: nat, root: nat, toSend: seq<Key>)

  predicate InSums(pc: Pc) {
    pc.SumTotal? || pc.MaxRuntime? || pc.SumAvg? || pc.SumKokkos?
  }

  predicate InBroadcast(pc: Pc) {
    pc.BcastLength? || pc.BcastName? || pc.BcastKind?
  }

  /** A node whose four reductions have completed up to `pc`. */
  ghost function Partly(trees: seq<Tree>, r: nat, p: Path, pc: Pc): Data
    requires r < |trees|
  {
    var d := At(trees[r], p);
    var d0 := d.(commSize := |trees|, maxRuntime := d.totalRuntime, avgRuntime := d.totalRuntime as real);
    var d1 := d0.(totalRuntime := SumInts(Totals(trees, p)));
    var d2 := d1.(maxRuntime := MaxInts(Totals(trees, p)));
    var d3 := d2.(avgRuntime := SumInts(Totals(trees, p)) as real / |trees| as real);
    match pc
    case SumTotal => d0
    case MaxRuntime => d1
    case SumAvg => d2
    case SumKokkos => d3
    case _ => Reduced(trees, r, p)
  }

  ghost function DataOf(s: Shared, trees: seq<Tree>, r: nat, p: Path): Data
    requires r < |trees| && s.pos <= |s.order|
  {
    if p in s.order[..s.pos] then Reduced(trees, r, p)
    else if s.pos < |s.order| && p == s.order[s.pos] then Partly(trees, r, p, s.pc)
    else At(trees[r], p)
  }

  ghost function Entered(s: Shared): set<Path> {
    set p | p in s.order
  }

  ghost function TreeOf(s: Shared, trees: seq<Tree>, r: nat): Tree
    requires r < |trees| && s.pos <= |s.order|
  {
    map p | p in trees[r].Keys + Entered(s) :: DataOf(s, trees, r, p)
  }

  /** The children of `node` that rank `r` has and no round has sent yet. */
  ghost function Pending(t: Tree, node: Path, order: seq<Path>): set<Key> {
    set k | k in ChildKeys(t, node) && node + [k] !in order
  }

  /** Rank `r` is in the state the common description says. */
  ghost predicate Agrees(p: Process, s: Shared, trees: seq<Tree>, r: nat)
    requires r < |trees| && s.pos <= |s.order|
  {
    && p.rank == r && p.size == |trees| && p.pc == s.pc
    && p.tree == TreeOf(s, trees, r)
    && (s.pos < |s.order| ==> p.node == s.order[s.pos] && p.queue == s.order[s.pos + 1..])
    && (InSums(s.pc) || s.pc.Done? || (
        && p.root == s.root
        && ((InBroadcast(s.pc) && r == s.root) || p.pending == Pending(trees[r], p.node, s.order))
        && (InBroadcast(s.pc) ==> p.left == |s.toSend| && (r == s.root ==> p.toSend == s.toSend))
        && (s.pc.BcastName? ==> s.toSend != [] && p.nameLen == |s.toSend[0].name|)
        && (s.pc.BcastKind? ==> s.toSend != [] && p.name == s.toSend[0].name)))
  }

  /** The common description is consistent. */
  ghost predicate Good(s: Shared, trees: seq<Tree>) {
    && trees != [] && (forall r :: 0 <= r < |trees| ==> WellFormed(trees[r]))
    && s.order != [] && s.order[0] == [] && s.pos <= |s.order|
    && (s.pc.Done? <==> s.pos == |s.order|)
    && (forall i, j :: 0 <= i < j < |s.order| ==> s.order[i] != s.order[j])
    && (forall p :: p in s.order ==> p in Union(trees))
    && ParentsFirst(s)
    && (forall i :: 0 <= i < s.pos ==> Closed(trees, s.order, s.order[i]))
    && (s.pos < |s.order| && !InSums(s.pc) ==> Rounds(s, trees))
  }

  /** A queued node's parent has been processed, or is being processed and its children are being exchanged. */
  ghost predicate ParentsFirst(s: Shared) {
    s.pos <= |s.order| &&
    forall p {:trigger Parent(p)} :: p in s.order && p != [] ==>
      Parent(p) in s.order[..s.pos] || (s.pos < |s.order| && !InSums(s.pc) && Parent(p) == s.order[s.pos])
  }

  /** Every child any rank has below `p` has been queued. */
  ghost predicate Closed(trees: seq<Tree>, order: seq<Path>, p: Path) {
    forall r :: 0 <= r < |trees| ==> Pending(trees[r], p, order) == {}
  }

  /** Where the exchange of the current node's children stands: ranks below the broadcaster have nothing left. */
  ghost predicate Rounds(s: Shared, trees: seq<Tree>)
    requires s.pos < |s.order|
  {
    var node := s.order[s.pos];
    && s.root < |trees|
    && (forall r :: 0 <= r < s.root ==> Pending(trees[r], node, s.order) == {})
    && (s.pc.NextRoot? ==> Pending(trees[s.root], node, s.order) == {})
    && (InBroadcast(s.pc) ==>
          && s.toSend != []
          && (forall i, j :: 0 <= i < j < |s.toSend| ==> s.toSend[i] != s.toSend[j])
          && (forall k :: k in s.toSend <==> k in Pending(trees[s.root], node, s.order)))
  }

  ghost predicate Explains(s: Shared, trees: seq<Tree>, w: World) {
    Good(s, trees) && |w| == |trees| && forall r :: 0 <= r < |w| ==> Agrees(w[r], s, trees, r)
  }

  // ---- One step of the common description ----

  ghost function AfterChild(s: Shared): Shared {
    if s.toSend == [] then s.(pc := NextRoot) else s.(pc := BcastLength)
  }

  ghost function RootProposals(s: Shared, trees: seq<Tree>): seq<int>
    requires s.pos < |s.order|
  {
    seq(|trees|, r requires 0 <= r < |trees| =>
      if Pending(trees[r], s.order[s.pos], s.order) == {} then |trees| else r)
  }

  ghost function NextNode(s: Shared): Shared {
    s.(pos := s.pos + 1, pc := if s.pos + 1 < |s.order| then SumTotal else Done)
  }

  ghost function Advance(s: Shared, trees: seq<Tree>): Shared
    requires Good(s, trees)
  {
    match s.pc
    case SumTotal => s.(pc := MaxRuntime)
    case MaxRuntime => s.(pc := SumAvg)
    case SumAvg => s.(pc := SumKokkos)
    case SumKokkos => s.(pc := BcastCount, root := 0)
    case BcastCount => AfterChild(s.(toSend := Listing(Pending(trees[s.root], s.order[s.pos], s.order))))
    case BcastLength => s.(pc := BcastName)
    case BcastName => s.(pc := BcastKind)
    case BcastKind => AfterChild(s.(order := s.order + [s.order[s.pos] + [s.toSend[0]]], toSend := s.toSend[1..]))
    case NextRoot =>
      var m := MinInts(RootProposals(s, trees));
      if 0 <= m < |trees| then s.(root := m, pc := BcastCount) else NextNode(s)
    case Done => s
  }

  // ---- The description stays consistent ----

  lemma UnionChild(trees: seq<Tree>, r: nat, node: Path, k: Key)
    requires r < |trees| && k in ChildKeys(trees[r], node)
    ensures node + [k] in trees[r] && node + [k] in Union(trees)
  {
    var q :| q in Children(trees[r], node) && Last(q) == k;
    assert q == node + [k];
  }

  lemma GoodSums(s: Shared, trees: seq<Tree>)
    requires Good(s, trees) && InSums(s.pc)
    ensures Good(Advance(s, trees), trees)
  {
  }

  lemma GoodCount(s: Shared, trees: seq<Tree>)
    requires Good(s, trees) && s.pc.BcastCount?
    ensures Good(Advance(s, trees), trees)
  {
    hide Pending, Closed, Union, WellFormed;
    var send := Listing(Pending(trees[s.root], s.order[s.pos], s.order));
    assert send == [] ==> Pending(trees[s.root], s.order[s.pos], s.order) == {};
  }

  lemma GoodNames(s: Shared, trees: seq<Tree>)
    requires Good(s, trees) && (s.pc.BcastLength? || s.pc.BcastName?)
    ensures Good(Advance(s, trees), trees)
  {
  }

  /** The lowest rank with anything left to send is elected, if there is one. */
  lemma Election(s: Shared, trees: seq<Tree>)
    requires Good(s, trees) && s.pc.NextRoot?
    ensures var m, node := MinInts(RootProposals(s, trees)), s.order[s.pos];
      && s.root < m <= |trees|
      && (m < |trees| ==> Pending(trees[m], node, s.order) != {})
      && (forall r :: 0 <= r < m && r < |trees| ==> Pending(trees[r], node, s.order) == {})
  {
    hide Pending;
    var proposals, node := RootProposals(s, trees), s.order[s.pos];
    var m := MinInts(proposals);
    var i :| 0 <= i < |proposals| && proposals[i] == m;
    forall r | 0 <= r < m && r < |trees| ensures Pending(trees[r], node, s.order) == {} {
      assert m <= proposals[r];
    }
  }

  lemma GoodNextRoot(s: Shared, trees: seq<Tree>)
    requires Good(s, trees) && s.pc.NextRoot?
    ensures Good(Advance(s, trees), trees)
    ensures Advance(s, trees).pc.BcastCount? ==> s.root < Advance(s, trees).root
  {
    hide Pending, Union, WellFormed;
    Election(s, trees);
    var m, s' := MinInts(RootProposals(s, trees)), Advance(s, trees);
    if m == |trees| {
      assert Closed(trees, s.order, s.order[s.pos]);
      assert s.order[..s.pos + 1] == s.order[..s.pos] + [s.order[s.pos]];
    }
  }

  /** Queueing a child takes its key off what is pending, on every rank. */
  lemma PendingShrinks(t: Tree, node: Path, order: seq<Path>, k: Key)
    ensures Pending(t, node, order + [node + [k]]) == Pending(t, node, order) - {k}
  {
    forall j ensures node + [j] in order + [node + [k]] <==> node + [j] in order || j == k {
      assert node + [j] == node + [k] ==> (node + [j])[|node|] == (node + [k])[|node|];
    }
  }

  lemma ClosedGrows(trees: seq<Tree>, order: seq<Path>, p: Path, c: Path)
    requires Closed(trees, order, p)
    ensures Closed(trees, order + [c], p)
  {
    forall r | 0 <= r < |trees| ensures Pending(trees[r], p, order + [c]) == {} {
      assert Pending(trees[r], p, order + [c]) <= Pending(trees[r], p, order);
    }
  }

  lemma KindOrder(s: Shared, trees: seq<Tree>)
    requires Good(s, trees) && s.pc.BcastKind?
    ensures var s' := Advance(s, trees);
      && (forall i, j :: 0 <= i < j < |s'.order| ==> s'.order[i] != s'.order[j])
      && (forall p :: p in s'.order ==> p in Union(trees))
      && ParentsFirst(s')
  {
    hide Pending, Closed, Union, WellFormed, ParentsFirst;
    var node, k, s' := s.order[s.pos], s.toSend[0], Advance(s, trees);
    PendingMember(trees, s.root, node, s.order, k);
    ParentOfChild(node, k);
    assert s'.order == s.order + [node + [k]];
    ParentsStayFirst(s, s', node + [k]);
  }

  lemma ParentsStayFirst(s: Shared, s': Shared, c: Path)
    requires ParentsFirst(s) && s.pos < |s.order| && c != [] && Parent(c) == s.order[s.pos]
    requires s'.pos == s.pos && s'.order == s.order + [c] && !InSums(s.pc) && !InSums(s'.pc)
    ensures ParentsFirst(s')
  {
    assert s'.order[..s.pos] == s.order[..s.pos];
  }

  lemma KindClosed(s: Shared, trees: seq<Tree>)
    requires Good(s, trees) && s.pc.BcastKind?
    ensures var s' := Advance(s, trees); forall i :: 0 <= i < s'.pos ==> Closed(trees, s'.order, s'.order[i])
  {
    hide Pending, Closed, Union, WellFormed, ParentsFirst;
    var c, s' := s.order[s.pos] + [s.toSend[0]], Advance(s, trees);
    forall i | 0 <= i < s'.pos ensures Closed(trees, s'.order, s'.order[i]) {
      ClosedGrows(trees, s.order, s.order[i], c);
    }
  }

  lemma KindRounds(s: Shared, trees: seq<Tree>)
    requires Good(s, trees) && s.pc.BcastKind?
    ensures var s' := Advance(s, trees); Rounds(s', trees)
  {
    hide Pending, Closed, Union, WellFormed, ParentsFirst;
    var node, k, s' := s.order[s.pos], s.toSend[0], Advance(s, trees);
    forall r | 0 <= r < |trees| ensures Pending(trees[r], node, s'.order) == Pending(trees[r], node, s.order) - {k} {
      PendingShrinks(trees[r], node, s.order, k);
    }
    assert forall j :: j in s'.toSend <==> j in s.toSend && j != k;
    if s'.toSend == [] {
      assert Pending(trees[s.root], node, s'.order) == {};
    }
  }

  lemma GoodKind(s: Shared, trees: seq<Tree>)
    requires Good(s, trees) && s.pc.BcastKind?
    ensures Good(Advance(s, trees), trees)
  {
    hide Pending, Closed, Union, WellFormed, ParentsFirst, Rounds;
    KindOrder(s, trees);
    KindClosed(s, trees);
    KindRounds(s, trees);
  }

  lemma PendingMember(trees: seq<Tree>, r: nat, node: Path, order: seq<Path>, k: Key)
    requires r < |trees| && k in Pending(trees[r], node, order)
    ensures node + [k] !in order && node + [k] in trees[r] && node + [k] in Union(trees)
  {
    UnionChild(trees, r, node, k);
  }

  // ---- The ranks follow the description ----

  /** What the pending collective delivers. */
  ghost function Result(s: Shared, trees: seq<Tree>): Value
    requires Good(s, trees) && !s.pc.Done?
  {
    var node := s.order[s.pos];
    match s.pc
    case SumTotal => Number(SumInts(Totals(trees, node)))
    case MaxRuntime => Number(MaxInts(Totals(trees, node)))
    case SumAvg => Ratio(SumInts(Totals(trees, node)) as real)
    case SumKokkos => Number(SumInts(Kokkos(trees, node)))
    case BcastCount => Number(|Pending(trees[s.root], node, s.order)|)
    case BcastLength => Number(|s.toSend[0].name|)
    case BcastName => Text(s.toSend[0].name)
    case BcastKind => Number(Orders.Rank(s.toSend[0].kind))
    case NextRoot => Number(MinInts(RootProposals(s, trees)))
    case Done => Number(0)
  }

  /** While the reduction runs, all ranks issue the same collective, with room for exactly what is sent. */
  lemma AllMatch(s: Shared, trees: seq<Tree>, w: World)
    requires Explains(s, trees, w) && !s.pc.Done?
    ensures Matched(w) && CallOf(w[0]).Bcast? == !(InSums(s.pc) || s.pc.NextRoot?)
    ensures CallOf(w[0]).Bcast? ==> CallOf(w[0]).root == s.root
    ensures CallOf(w[0]).count == if s.pc.BcastName? then |s.toSend[0].name| else 1
    ensures CallOf(w[0]).elements == if InSums(s.pc) then DoubleType else if s.pc.BcastName? then CharType else IntType
  {
    hide Pending, Closed, Union, WellFormed, ParentsFirst, TreeOf;
    assert Agrees(w[0], s, trees, 0);
    forall r | 0 <= r < |w| ensures CallOf(w[r]) == CallOf(w[0]) {
      assert Agrees(w[r], s, trees, r);
    }
  }

  lemma CurrentNode(s: Shared, trees: seq<Tree>, r: nat)
    requires Good(s, trees) && !s.pc.Done? && r < |trees|
    ensures At(TreeOf(s, trees, r), s.order[s.pos]) == Partly(trees, r, s.order[s.pos], s.pc)
  {
  }

  /** What one rank contributes. */
  ghost function Share(s: Shared, trees: seq<Tree>, r: nat): Value
    requires Good(s, trees) && !s.pc.Done? && r < |trees|
  {
    var d := Partly(trees, r, s.order[s.pos], s.pc);
    match s.pc
    case SumTotal => Number(d.totalRuntime)
    case MaxRuntime => Number(d.maxRuntime)
    case SumAvg => Ratio(d.avgRuntime)
    case SumKokkos => Number(d.totalKokkosRuntime)
    case NextRoot => Number(RootProposals(s, trees)[r])
    case _ => Result(s, trees)
  }

  lemma ContributionIs(p: Process, s: Shared, trees: seq<Tree>, r: nat)
    requires Good(s, trees) && !s.pc.Done? && r < |trees| && Agrees(p, s, trees, r)
    ensures InSums(s.pc) || s.pc.NextRoot? || r == s.root ==> Contribution(p) == Share(s, trees, r)
  {
    hide Pending, Closed, Union, WellFormed, ParentsFirst, TreeOf, Partly;
    CurrentNode(s, trees, r);
  }

  lemma OutcomeIs(s: Shared, trees: seq<Tree>, w: World)
    requires Explains(s, trees, w) && !s.pc.Done? && Matched(w) && w[0].pc == s.pc
    requires CallOf(w[0]).Bcast? ==> CallOf(w[0]).root == s.root
    requires s.pc.BcastName? ==> CallOf(w[0]).count == |s.toSend[0].name|
    ensures Outcome(CallOf(w[0]), Contributions(w)) == Result(s, trees)
  {
    hide Pending, Closed, Union, WellFormed, ParentsFirst, TreeOf, Agrees;
    var vs, node := Contributions(w), s.order[s.pos];
    forall r | 0 <= r < |w| ensures InSums(s.pc) || s.pc.NextRoot? || r == s.root ==> vs[r] == Share(s, trees, r) {
      assert Agrees(w[r], s, trees, r);
      ContributionIs(w[r], s, trees, r);
    }
    match s.pc {
      case SumTotal => assert Ints(vs) == Totals(trees, node);
      case MaxRuntime => assert Ints(vs) == Totals(trees, node);
      case SumAvg => SumOfConversions(Totals(trees, node), Reals(vs));
      case SumKokkos => assert Ints(vs) == Kokkos(trees, node);
      case NextRoot => assert Ints(vs) == RootProposals(s, trees);
      case _ =>
    }
  }

  // ---- Each rank's next state ----

  /** Writing the current node's data moves the tree to the next reduction. */
  lemma SumsTree(s: Shared, trees: seq<Tree>, r: nat, pc: Pc)
    requires Good(s, trees) && InSums(s.pc) && r < |trees|
    ensures var node := s.order[s.pos];
      TreeOf(s, trees, r)[node := Partly(trees, r, node, pc)] == TreeOf(s.(pc := pc), trees, r)
  {
    hide Closed, Union, WellFormed, ParentsFirst, Partly;
  }

  lemma ResumeSums(p: Process, s: Shared, trees: seq<Tree>, r: nat)
    requires Good(s, trees) && InSums(s.pc) && !s.pc.SumKokkos? && r < |trees| && Agrees(p, s, trees, r)
    ensures Agrees(Resume(p, Result(s, trees)), Advance(s, trees), trees, r)
  {
    hide Pending, Closed, Union, WellFormed, ParentsFirst, TreeOf;
    CurrentNode(s, trees, r);
    SumsTree(s, trees, r, Advance(s, trees).pc);
  }

  /** When the reductions of a node are through, none of its children has been queued. */
  lemma NoChildQueued(s: Shared, trees: seq<Tree>, k: Key)
    requires Good(s, trees) && InSums(s.pc)
    ensures s.order[s.pos] + [k] !in s.order
  {
    ParentOfChild(s.order[s.pos], k);
  }

  lemma FirstPending(s: Shared, trees: seq<Tree>, r: nat, t: Tree)
    requires Good(s, trees) && InSums(s.pc) && r < |trees| && t.Keys == trees[r].Keys + Entered(s)
    ensures ChildKeys(t, s.order[s.pos]) == Pending(trees[r], s.order[s.pos], s.order)
  {
    hide Closed, Union, WellFormed, ParentsFirst;
    var node := s.order[s.pos];
    forall k ensures k in ChildKeys(t, node) <==> k in Pending(trees[r], node, s.order) {
      NoChildQueued(s, trees, k);
      InChildKeys(t, node, k);
      InChildKeys(trees[r], node, k);
    }
  }

  lemma InChildKeys(t: Tree, p: Path, k: Key)
    ensures k in ChildKeys(t, p) <==> p + [k] in t
  {
    ParentOfChild(p, k);
    if p + [k] in t { assert p + [k] in Children(t, p); }
    if k in ChildKeys(t, p) {
      var q :| q in Children(t, p) && Last(q) == k;
      assert q == p + [k];
    }
  }

  lemma ResumeKokkos(p: Process, s: Shared, trees: seq<Tree>, r: nat)
    requires Good(s, trees) && s.pc.SumKokkos? && r < |trees| && Agrees(p, s, trees, r)
    ensures Agrees(Resume(p, Result(s, trees)), Advance(s, trees), trees, r)
  {
    hide Pending, Closed, Union, WellFormed, ParentsFirst, TreeOf, ChildKeys;
    CurrentNode(s, trees, r);
    SumsTree(s, trees, r, BcastCount);
    var node, s' := s.order[s.pos], Advance(s, trees);
    var q := Resume(p, Result(s, trees));
    assert Partly(trees, r, node, SumKokkos).(totalKokkosRuntime := SumInts(Kokkos(trees, node)))
      == Partly(trees, r, node, BcastCount);
    assert q.tree == TreeOf(s.(pc := BcastCount), trees, r);
    SameTree(s.(pc := BcastCount), s', trees, r);
    TreeKeys(s', trees, r);
    FirstPending(s, trees, r, q.tree);
  }

  lemma TreeKeys(s: Shared, trees: seq<Tree>, r: nat)
    requires r < |trees| && s.pos <= |s.order|
    ensures TreeOf(s, trees, r).Keys == trees[r].Keys + Entered(s)
  {
  }

  /** During an exchange only queueing a child or moving to the next node changes the tree. */
  lemma SameTree(s: Shared, s': Shared, trees: seq<Tree>, r: nat)
    requires r < |trees| && s.pos == s'.pos <= |s.order| && s.order == s'.order
    requires !InSums(s.pc) && !InSums(s'.pc)
    ensures TreeOf(s, trees, r) == TreeOf(s', trees, r)
  {
  }

  /** The broadcasting rank lists what it still has; the others learn how many that is. */
  lemma CountedProcess(p: Process, s: Shared, trees: seq<Tree>, r: nat)
    requires Good(s, trees) && s.pc.BcastCount? && r < |trees| && Agrees(p, s, trees, r)
    ensures var send, q := Listing(Pending(trees[s.root], p.node, s.order)), Resume(p, Result(s, trees));
      && q.pc == (if send == [] then NextRoot else BcastLength) && q.left == |send|
      && q == p.(pc := q.pc, left := |send|, toSend := if r == s.root then send else p.toSend,
                 pending := if r == s.root && send == [] then {} else p.pending)
  {
    hide Pending, Closed, Union, WellFormed, ParentsFirst, TreeOf, Rounds;
  }

  lemma ResumeCount(p: Process, s: Shared, trees: seq<Tree>, r: nat)
    requires Good(s, trees) && s.pc.BcastCount? && r < |trees| && Agrees(p, s, trees, r)
    ensures Agrees(Resume(p, Result(s, trees)), Advance(s, trees), trees, r)
  {
    hide Pending, Good, TreeOf, Resume, Result;
    CountedProcess(p, s, trees, r);
    CountRange(s, trees);
    assert Listing(Pending(trees[s.root], p.node, s.order)) == [] ==> Pending(trees[s.root], p.node, s.order) == {};
    CountedAgrees(p, Resume(p, Result(s, trees)), s, Advance(s, trees), trees, r,
      Listing(Pending(trees[s.root], p.node, s.order)));
  }

  lemma CountedAgrees(p: Process, q: Process, s: Shared, s': Shared, trees: seq<Tree>, r: nat, send: seq<Key>)
    requires s.pos < |s.order| && s.root < |trees| && s.pc.BcastCount? && r < |trees| && Agrees(p, s, trees, r)
    requires send == [] ==> Pending(trees[s.root], s.order[s.pos], s.order) == {}
    requires s' == s.(toSend := send, pc := if send == [] then NextRoot else BcastLength)
    requires q == p.(pc := s'.pc, left := |send|, toSend := if r == s.root then send else p.toSend,
                     pending := if r == s.root && send == [] then {} else p.pending)
    ensures Agrees(q, s', trees, r)
  {
    hide Pending, TreeOf;
    SameTree(s, s', trees, r);
  }

  lemma CountRange(s: Shared, trees: seq<Tree>)
    requires Good(s, trees) && s.pc.BcastCount?
    ensures s.pos < |s.order| && s.root < |trees|
  {
  }

  lemma ResumeNames(p: Process, s: Shared, trees: seq<Tree>, r: nat)
    requires Good(s, trees) && (s.pc.BcastLength? || s.pc.BcastName?) && r < |trees| && Agrees(p, s, trees, r)
    ensures Agrees(Resume(p, Result(s, trees)), Advance(s, trees), trees, r)
  {
    hide Pending, Closed, Union, WellFormed, ParentsFirst, TreeOf;
    SameTree(s, Advance(s, trees), trees, r);
  }

  /** Looking up a child just announced makes the tree that of the longer queue. */
  lemma ChildTree(s: Shared, s': Shared, trees: seq<Tree>, r: nat, k: Key)
    requires Good(s, trees) && InBroadcast(s.pc) && r < |trees|
    requires s.order[s.pos] + [k] !in s.order
    requires s'.pos == s.pos && s'.order == s.order + [s.order[s.pos] + [k]] && !InSums(s'.pc)
    ensures EnsureChild(TreeOf(s, trees, r), s.order[s.pos], k) == TreeOf(s', trees, r)
  {
    hide Closed, Union, WellFormed, ParentsFirst, Reduced;
    assert s'.order[..s'.pos] == s.order[..s.pos];
    assert Entered(s') == Entered(s) + {s.order[s.pos] + [k]};
  }

  lemma KindRoundTrip(k: StackKind)
    ensures KindOf(Orders.Rank(k)) == k
  {
  }

  lemma ResumeKind(p: Process, s: Shared, trees: seq<Tree>, r: nat)
    requires Good(s, trees) && s.pc.BcastKind? && r < |trees| && Agrees(p, s, trees, r)
    ensures Agrees(Resume(p, Result(s, trees)), Advance(s, trees), trees, r)
  {
    hide Pending, Closed, Union, WellFormed, ParentsFirst, TreeOf, EnsureChild, KindOf;
    var node, k, s' := s.order[s.pos], s.toSend[0], Advance(s, trees);
    KindRoundTrip(k.kind);
    PendingMember(trees, s.root, node, s.order, k);
    PendingShrinks(trees[r], node, s.order, k);
    PendingShrinks(trees[s.root], node, s.order, k);
    ChildTree(s, s', trees, r, k);
    assert s'.order[s'.pos + 1..] == s.order[s.pos + 1..] + [node + [k]];
    GoodKind(s, trees);
  }

  lemma LastTree(s: Shared, trees: seq<Tree>, r: nat)
    requires Good(s, trees) && s.pc.NextRoot? && r < |trees| && s.pos + 1 == |s.order|
    ensures TreeOf(s, trees, r) == TreeOf(NextNode(s), trees, r)
  {
    hide Closed, Union, WellFormed, ParentsFirst, Reduced, Rounds;
    assert s.order[..s.pos + 1] == s.order[..s.pos] + [s.order[s.pos]];
  }

  lemma FreshNode(s: Shared, trees: seq<Tree>, r: nat)
    requires Good(s, trees) && s.pc.NextRoot? && r < |trees| && s.pos + 1 < |s.order|
    ensures At(TreeOf(s, trees, r), s.order[s.pos + 1]) == At(trees[r], s.order[s.pos + 1])
  {
    hide Closed, Union, WellFormed, ParentsFirst, Reduced, Rounds;
  }

  lemma NextNodeTree(s: Shared, trees: seq<Tree>, r: nat)
    requires Good(s, trees) && s.pc.NextRoot? && r < |trees| && s.pos + 1 < |s.order|
    ensures var node := s.order[s.pos + 1];
      TreeOf(s, trees, r)[node := Partly(trees, r, node, SumTotal)] == TreeOf(NextNode(s), trees, r)
  {
    hide Good, Partly, DataOf;
    var node, s' := s.order[s.pos + 1], NextNode(s);
    var t, t' := TreeOf(s, trees, r), TreeOf(s', trees, r);
    assert t'.Keys == t.Keys && node in t;
    forall p | p in t ensures t'[p] == if p == node then Partly(trees, r, node, SumTotal) else t[p] {
      NextNodeData(s, trees, r, p);
    }
  }

  lemma NextNodeData(s: Shared, trees: seq<Tree>, r: nat, p: Path)
    requires Good(s, trees) && s.pc.NextRoot? && r < |trees| && s.pos + 1 < |s.order|
    ensures DataOf(NextNode(s), trees, r, p)
      == if p == s.order[s.pos + 1] then Partly(trees, r, p, SumTotal) else DataOf(s, trees, r, p)
  {
    hide Closed, Union, WellFormed, ParentsFirst, Reduced, Rounds;
    assert s.order[..s.pos + 1] == s.order[..s.pos] + [s.order[s.pos]];
  }

  lemma ResumeNextRoot(p: Process, s: Shared, trees: seq<Tree>, r: nat)
    requires Good(s, trees) && s.pc.NextRoot? && r < |trees| && Agrees(p, s, trees, r)
    ensures Agrees(Resume(p, Result(s, trees)), Advance(s, trees), trees, r)
  {
    hide Pending, Closed, Union, WellFormed, ParentsFirst, TreeOf;
    Election(s, trees);
    hide Rounds;
    if s.pos + 1 < |s.order| {
      FreshNode(s, trees, r);
      NextNodeTree(s, trees, r);
    } else {
      LastTree(s, trees, r);
    }
    SameTree(s, s.(pc := BcastCount), trees, r);
    SameTree(s, s.(pc := BcastCount, root := Advance(s, trees).root), trees, r);
  }
}
