/** From a run of the profiler to the lines it prints when it shuts down. */
module Shutdown {
  import opened CallTree
  import P = Profile
  import opened StackTrees
  import Aggregation
  import opened Nesting
  import opened States
  import opened Reduction
  import opened RankReduction
  import opened Communication
  import opened Inversion
  import opened Agreement
  import opened FinalReport
  import opened Printing
  import opened Printer
  import opened WholeRun

  /** The paths of the nodes these lines show. */
  ghost function Shown(tree: StackTree, rows: seq<Row>): seq<Path>
    requires tree.Valid()
    reads tree
  {
    seq(|rows|, i requires 0 <= i < |rows| && tree.Valid() reads tree =>
      if rows[i].address < |tree.nodes| then tree.PathAt(rows[i].address) else [])
  }

  /** These lines are the report of the tree: every node on as many of them as it should be, in order, and indented by
      the rails of the nodes above it. */
  ghost predicate Reports(tree: StackTree, rows: seq<Row>, threshold: real)
    requires tree.Valid()
    reads tree
  {
    var t := tree.View();
    && [] in t
    && (forall i :: 0 <= i < |rows| ==> rows[i].address < |tree.nodes|)
    && (forall q :: multiset(Shown(tree, rows))[q] == LinesOf(t, threshold, q))
    && (forall i, j :: 0 <= i < j < |rows| ==> Precedes(t, Shown(tree, rows)[i], Shown(tree, rows)[j]))
    && (forall i :: 0 <= i < |rows| ==> rows[i].indent == IndentOf(t, Shown(tree, rows)[i]))
  }

  /** Prints one tree from its root. */
  method Print(tree: StackTree, threshold: real) returns (rows: seq<Row>)
    requires tree.Valid()
    ensures Reports(tree, rows, threshold)
  {
    hide Linked, ViewOf, PrintFrom, Precedes, IndentOf, Rails;
    tree.AtRoot();
    tree.AtNode(0);
    var s := Settings(tree.nodes[0].data.totalRuntime, threshold);
    rows := PrintRecursive(tree, 0, "", "", s);
    ghost var t := tree.View();
    ghost var lines := PrintFrom(t, [], "", "", s);
    assert Shown(tree, rows) == Nodes(lines);
    PrintOrder(t, [], "", "", s);
    RootIndent(t);
    PrintIndents(t, [], s);
  }

  lemma RootIndent(t: Tree)
    ensures IndentOf(t, []) == "" && Rails(t, []) == ""
  {
  }

  /** The tree a run brings to the reduction is the one its events say. */
  lemma BroughtIs(s: State, run: RankRun)
    requires s.Valid() && Complete(run) && s.Stage() == P.Run(run.start, run.events)
    ensures s.stackFrame.To? && s.Stage().Running? && s.Stage().frame == []
    ensures s.Brought(run.end) == RankTree(run)
  {
    hide Linked, ViewOf, Aggregation.Adopted, P.Refines;
    P.RunRefines(run.start, run.events);
    Nesting.FinishedNested(run.start, run.events, run.end);
    s.stack.AtRoot();
  }

  /** A process without MPI that shuts down after a complete run: it prints both reports, and the top-down one shows
      exactly the named paths begun whose time is that percentage of the run time, unless a tie hides them. */
  method ShutDownAlone(s: State, threshold: real, ghost run: RankRun, endTime: int)
    returns (ok: bool, inv: StackTree?, topDown: seq<Row>, bottomUp: seq<Row>)
    requires s.Valid() && Complete(run) && endTime == run.end && s.Stage() == P.Run(run.start, run.events)
    modifies s.stack
    ensures ok && inv != null && fresh(inv) && inv.Valid() && s.Valid()
    ensures Reports(s.stack, topDown, threshold) && Reports(inv, bottomUp, threshold)
    ensures s.stack.View() == ReducedAlone(RankTree(run), RankTree(run).Keys)
    ensures inv.View() == ReducedAlone(Inverted(s.stack.View()), Inverted(s.stack.View()).Keys)
    ensures forall q :: multiset(Shown(s.stack, topDown))[q] == LinesDue([run], Hidden(s.stack.View(), q), threshold, q)
  {
    hide Linked, ViewOf, ReducedAlone, Inverted, RankTree, ReportsExactly, NestedBy, MaxFalls, P.Refines, LinesOf,
      LinesDue, Hidden, Precedes, IndentOf, Complete, P.Run;
    BroughtIs(s, run);
    ok, inv := s.Finish(endTime, null, 0, 0);
    topDown := Print(s.stack, threshold);
    bottomUp := Print(inv, threshold);
    forall q ensures multiset(Shown(s.stack, topDown))[q] == LinesDue([run], Hidden(s.stack.View(), q), threshold, q) {
      RunReports(run, threshold, q);
    }
  }

  /** The library delivers what the collectives of both reductions come to, the second behind the first. */
  ghost predicate DeliversBoth(comm: Communicator, from: nat, runs: seq<RankRun>)
    requires AllComplete(runs)
    requires comm.rank < |runs|
  {
    && Delivers(comm.results, from, Start(RankTrees(runs)))
    && forall steps: nat :: Ends(RankTree(runs[comm.rank]), comm, from, steps) ==>
         Delivers(comm.results, from + steps, Start(BottomUps(RankTrees(runs))))
  }

  lemma BothEnd(comm: Communicator, from: nat, runs: seq<RankRun>) returns (steps: nat, invSteps: nat)
    requires AllComplete(runs) && comm.rank < |runs| == comm.size && DeliversBoth(comm, from, runs)
    ensures var t, top := RankTree(runs[comm.rank]), ReducedTree(RankTrees(runs), comm.rank);
      && Ends(t, comm, from, steps) && AfterReduction(t, comm, from, steps) == top
      && Ends(Inverted(top), comm, from + steps, invSteps)
      && AfterReduction(Inverted(top), comm, from + steps, invSteps)
           == ReducedTree(BottomUps(RankTrees(runs)), comm.rank)
  {
    hide ReducedTree, RankTree, NestedBy, Delivers, EndsAfter, Follow, Inverted, StartNode, Start, Ready;
    var trees := RankTrees(runs);
    AllNested(runs);
    BottomUpsReady(trees);
    steps := RankEnds(trees, comm.rank, comm.results, from);
    assert trees[comm.rank] == RankTree(runs[comm.rank]) && Ends(trees[comm.rank], comm, from, steps);
    invSteps := RankEnds(BottomUps(trees), comm.rank, comm.results, from + steps);
  }

  /** One rank of many that shuts down after a complete run, delivered what the collectives of all ranks come to:
      it ends with the same reduced trees as every other rank, and rank 0 prints both. */
  method ShutDownOverMpi(s: State, comm: Communicator, threshold: real, ghost runs: seq<RankRun>, endTime: int)
    returns (ok: bool, inv: StackTree?, topDown: seq<Row>, bottomUp: seq<Row>)
    requires s.Valid() && comm.Valid() && AllComplete(runs) && comm.size == |runs|
    requires endTime == runs[comm.rank].end
    requires s.Stage() == P.Run(runs[comm.rank].start, runs[comm.rank].events)
    requires DeliversBoth(comm, |comm.issued|, runs)
    modifies s.stack, comm
    ensures ok && inv != null && fresh(inv) && inv.Valid() && s.Valid()
    ensures s.stack.View() == ReducedTree(RankTrees(runs), comm.rank)
    ensures inv.View() == ReducedTree(BottomUps(RankTrees(runs)), comm.rank)
    ensures comm.rank == 0 ==> Reports(s.stack, topDown, threshold) && Reports(inv, bottomUp, threshold)
    ensures comm.rank == 0 ==>
      forall q :: multiset(Shown(s.stack, topDown))[q] == LinesDue(runs, Hidden(s.stack.View(), q), threshold, q)
  {
    hide Linked, ViewOf, ReducedTree, RankTree, RankTrees, BottomUps, ReportsExactly, DeliversBoth, Ends,
      AfterReduction, Inverted, Complete, P.Run, LinesOf, LinesDue, Hidden, Precedes, IndentOf;
    BroughtIs(s, runs[comm.rank]);
    ghost var steps, invSteps := BothEnd(comm, |comm.issued|, runs);
    ok, inv := s.Finish(endTime, comm, steps, invSteps);
    topDown, bottomUp := [], [];
    if comm.rank == 0 {
      topDown := Print(s.stack, threshold);
      bottomUp := Print(inv, threshold);
      forall q ensures multiset(Shown(s.stack, topDown))[q] == LinesDue(runs, Hidden(s.stack.View(), q), threshold, q) {
        TopDownReport(runs, comm.rank, threshold, q);
      }
    }
  }
}
