/** From the events of every rank to the two printed trees. */
module WholeRun {
  import opened Sums
  import opened CallTree
  import P = Profile
  import opened Nesting
  import opened Aggregation
  import opened Inversion
  import opened Mpi
  import opened Reduction
  import opened Agreement
  import opened FinalReport
  import opened BottomUp
  import opened Printing

  /** One rank's run: when the profiler started, what happened, and when it shut down. */
  datatype RankRun = RankRun(start: int, events: seq<P.Event>, end: int)

  /** Events are well nested and everything is closed at the end; the clock never runs backwards. */
  ghost predicate Complete(run: RankRun) {
    && P.WellNested(run.events) && P.Open(run.events) == []
    && Monotone(run.start, run.events) && Clock(run.start, run.events) <= run.end
  }

  /** The tree a rank brings to the reduction. */
  ghost function RankTree(run: RankRun): Tree
    requires Complete(run)
  {
    FinishedNested(run.start, run.events, run.end);
    Adopted(Finished(P.Run(run.start, run.events).tree, run.end))
  }

  lemma AdoptedTotals(t: Tree)
    requires NestedTotals(t)
    ensures NestedBy(Total, Adopted(t))
  {
    var a := Adopted(t);
    assert WellFormed(a);
    forall p | p in a ensures 0 <= Read(Total, a)(p) && Sum(Children(a, p), Read(Total, a)) <= Read(Total, a)(p) {
      assert Children(a, p) == Children(t, p);
      SumCongruent(Children(t, p), TotalAt(t), Read(Total, a));
    }
  }

  lemma AdoptedKokkosAt(t: Tree, p: Path)
    requires WellFormed(t) && p in t && forall q :: q in t ==> 0 <= OwnKokkos(t)(q)
    ensures var a := Adopted(t);
      0 <= Read(KokkosTotal, a)(p) &&
      Sum(Children(a, p), Read(KokkosTotal, a)) == Read(KokkosTotal, a)(p) - OwnKokkos(t)(p)
  {
    var a := Adopted(t);
    assert Children(a, p) == Children(t, p);
    SubtreeUnfold(t, p, OwnKokkos(t));
    SumNonNegative(Subtree(t, p), OwnKokkos(t));
    forall c | c in Children(t, p) ensures SubtreeSum(t, OwnKokkos(t))(c) == Read(KokkosTotal, a)(c) {
    }
    SumCongruent(Children(t, p), SubtreeSum(t, OwnKokkos(t)), Read(KokkosTotal, a));
  }

  lemma AdoptedKokkos(t: Tree)
    requires WellFormed(t) && forall q :: q in t ==> 0 <= OwnKokkos(t)(q)
    ensures NestedBy(KokkosTotal, Adopted(t))
  {
    var a := Adopted(t);
    assert WellFormed(a);
    forall p | p in a
      ensures 0 <= Read(KokkosTotal, a)(p) && Sum(Children(a, p), Read(KokkosTotal, a)) <= Read(KokkosTotal, a)(p)
    {
      AdoptedKokkosAt(t, p);
    }
  }

  /** No time is ever credited to the root before the end. */
  lemma {:induction false} RootNeverLeft(es: seq<P.Event>)
    ensures P.Elapsed(es, []) == 0
  {
    if es != [] {
      RootNeverLeft(es[..|es| - 1]);
    }
  }

  lemma RankTreeCounts(run: RankRun, p: Path)
    requires Complete(run)
    ensures p in RankTree(run) <==> p == [] || P.Begins(run.events, p) > 0
    ensures p in RankTree(run) && p != [] ==>
      && RankTree(run)[p].totalRuntime == P.Elapsed(run.events, p)
      && RankTree(run)[p].numberOfCalls == P.Begins(run.events, p)
  {
    P.RunRefines(run.start, run.events);
    FinishedNested(run.start, run.events, run.end);
    assert P.CountAgrees(P.Run(run.start, run.events).tree, run.events, p);
  }

  lemma RankRoot(run: RankRun)
    requires Complete(run)
    ensures [] in RankTree(run) && RankTree(run)[[]].totalRuntime == run.end - run.start
  {
    P.RunRefines(run.start, run.events);
    RootNeverLeft(run.events);
    FinishedNested(run.start, run.events, run.end);
    assert P.CountAgrees(P.Run(run.start, run.events).tree, run.events, []);
  }

  /** What one rank holds when its run is over. */
  lemma RankTreeHolds(run: RankRun)
    requires Complete(run)
    ensures var t := RankTree(run);
      && NestedBy(Total, t) && NestedBy(KokkosTotal, t)
      && [] in t && t[[]].totalRuntime == run.end - run.start
      && (forall p :: p in t <==> p == [] || P.Begins(run.events, p) > 0)
      && (forall p :: p in t && p != [] ==>
            t[p].totalRuntime == P.Elapsed(run.events, p) && t[p].numberOfCalls == P.Begins(run.events, p))
  {
    hide NestedBy, Adopted, NestedTotals, P.Refines, OwnKokkos;
    P.RunRefines(run.start, run.events);
    FinishedNested(run.start, run.events, run.end);
    var t := Finished(P.Run(run.start, run.events).tree, run.end);
    AdoptedTotals(t);
    forall q | q in t ensures 0 <= OwnKokkos(t)(q) {
      OwnNotNegative(run, q);
    }
    NestedWellFormed(t);
    AdoptedKokkos(t);
    RankRoot(run);
    hide RankTree;
    forall p ensures p in RankTree(run) <==> p == [] || P.Begins(run.events, p) > 0 { RankTreeCounts(run, p); }
    forall p | p in RankTree(run) && p != []
      ensures RankTree(run)[p].totalRuntime == P.Elapsed(run.events, p)
      ensures RankTree(run)[p].numberOfCalls == P.Begins(run.events, p)
    {
      RankTreeCounts(run, p);
    }
  }

  lemma NestedWellFormed(t: Tree)
    requires NestedTotals(t)
    ensures WellFormed(t)
  {
  }

  lemma OwnNotNegative(run: RankRun, q: Path)
    requires Complete(run) && P.Run(run.start, run.events).Running?
    requires NestedTotals(Finished(P.Run(run.start, run.events).tree, run.end))
    ensures 0 <= OwnKokkos(Finished(P.Run(run.start, run.events).tree, run.end))(q)
  {
    P.RunRefines(run.start, run.events);
    var t := P.Run(run.start, run.events).tree;
    if q in t {
      assert P.CountAgrees(t, run.events, q);
    }
  }

  ghost function KernelTimeAt(es: seq<P.Event>): Path -> int {
    q => if IsKernel(q) then P.Elapsed(es, q) else 0
  }

  ghost function KernelBeginsAt(es: seq<P.Event>): Path -> int {
    q => if IsKernel(q) then P.Begins(es, q) else 0
  }

  /** What the aggregated columns mean: the time and the number of kernels and copies in the subtree. */
  lemma RankTreeAggregates(run: RankRun, p: Path)
    requires Complete(run) && p in RankTree(run)
    ensures var t := RankTree(run);
      && t[p].totalKokkosRuntime == Sum(Subtree(t, p), KernelTimeAt(run.events))
      && t[p].totalNumberOfKernelCalls == Sum(Subtree(t, p), KernelBeginsAt(run.events))
  {
    P.RunRefines(run.start, run.events);
    FinishedNested(run.start, run.events, run.end);
    var t := Finished(P.Run(run.start, run.events).tree, run.end);
    assert Subtree(RankTree(run), p) == Subtree(t, p);
    forall q | q in t
      ensures OwnKokkos(t)(q) == KernelTimeAt(run.events)(q) && KernelCallsAt(t)(q) == KernelBeginsAt(run.events)(q)
    {
      assert P.CountAgrees(P.Run(run.start, run.events).tree, run.events, q);
    }
    SumCongruent(Subtree(t, p), OwnKokkos(t), KernelTimeAt(run.events));
    SumCongruent(Subtree(t, p), KernelCallsAt(t), KernelBeginsAt(run.events));
  }

  /** Kokkos time stays within total time at every node exactly when no kernel spent time inside another. */
  lemma RankKokkosBounded(run: RankRun)
    requires Complete(run)
    ensures (forall p :: p in RankTree(run) ==> RankTree(run)[p].totalKokkosRuntime <= RankTree(run)[p].totalRuntime)
       <==> KernelsApart(RankTree(run))
  {
    P.RunRefines(run.start, run.events);
    FinishedNested(run.start, run.events, run.end);
    var t := Finished(P.Run(run.start, run.events).tree, run.end);
    hide NestedTotals, Adopted, P.Run;
    forall p | p in t ensures t[p].totalKokkosRuntime == 0 {
      assert P.CountAgrees(P.Run(run.start, run.events).tree, run.events, p);
    }
    KokkosWithinTotalIff(t);
    ApartAlike(t);
  }

  lemma ApartAlike(t: Tree)
    ensures Adopted(t).Keys == t.Keys && forall p :: p in t ==> Adopted(t)[p].totalRuntime == t[p].totalRuntime
    ensures KernelsApart(t) <==> KernelsApart(Adopted(t))
  {
    var a := Adopted(t);
    forall p | p in t ensures a[p].totalRuntime == t[p].totalRuntime {
    }
  }

  ghost predicate AllComplete(runs: seq<RankRun>) {
    runs != [] && forall r :: 0 <= r < |runs| ==> Complete(runs[r])
  }

  ghost function RankTrees(runs: seq<RankRun>): seq<Tree>
    requires AllComplete(runs)
  {
    seq(|runs|, r requires 0 <= r < |runs| => RankTree(runs[r]))
  }

  lemma AllNested(runs: seq<RankRun>)
    requires AllComplete(runs)
    ensures Ready(RankTrees(runs))
    ensures forall r :: 0 <= r < |runs| ==>
      NestedBy(Total, RankTrees(runs)[r]) && NestedBy(KokkosTotal, RankTrees(runs)[r])
  {
    forall r | 0 <= r < |runs|
      ensures NestedBy(Total, RankTrees(runs)[r]) && NestedBy(KokkosTotal, RankTrees(runs)[r])
    {
      RankTreeHolds(runs[r]);
    }
  }

  ghost function Durations(runs: seq<RankRun>): seq<int> {
    seq(|runs|, r requires 0 <= r < |runs| => runs[r].end - runs[r].start)
  }

  /** However many ranks there are and whatever each of them did, the reduction ends; every rank then
      holds a tree in which children fit into their parents in both time columns and cutting at a threshold
      is sound, whose root holds the summed run times of all ranks. */
  lemma ReducedRun(runs: seq<RankRun>) returns (steps: nat)
    requires AllComplete(runs)
    ensures var w := After(Start(RankTrees(runs)), steps);
      && |w| == |runs| && AllDone(w)
      && forall r :: 0 <= r < |w| ==>
           && w[r].tree == ReducedTree(RankTrees(runs), r)
           && NestedBy(Total, w[r].tree) && NestedBy(KokkosTotal, w[r].tree) && MaxFalls(w[r].tree)
           && [] in w[r].tree && w[r].tree[[]].totalRuntime == SumInts(Durations(runs))
  {
    hide NestedBy, ReducedTree, Ready, Start, RankTree, MaxFalls;
    var trees := RankTrees(runs);
    AllNested(runs);
    steps := ReductionCorrect(trees);
    forall r | 0 <= r < |runs|
      ensures NestedBy(Total, ReducedTree(trees, r)) && NestedBy(KokkosTotal, ReducedTree(trees, r))
      ensures MaxFalls(ReducedTree(trees, r))
      ensures [] in ReducedTree(trees, r) && ReducedTree(trees, r)[[]].totalRuntime == SumInts(Durations(runs))
    {
      ReducedNested(Total, trees, r);
      ReducedNested(KokkosTotal, trees, r);
      ReducedMaxFalls(trees, r);
      RootSum(runs, r);
    }
  }

  lemma RootSum(runs: seq<RankRun>, r: nat)
    requires AllComplete(runs) && r < |runs|
    ensures [] in ReducedTree(RankTrees(runs), r)
    ensures ReducedTree(RankTrees(runs), r)[[]].totalRuntime == SumInts(Durations(runs))
  {
    hide RankTree, NestedBy;
    var trees := RankTrees(runs);
    forall i | 0 <= i < |runs| ensures [] in trees[i] && Totals(trees, [])[i] == Durations(runs)[i] {
      RankTreeHolds(runs[i]);
    }
    assert [] in trees[0];
    assert Totals(trees, []) == Durations(runs);
  }

  /** On how many lines the report of `t` shows `q`. */
  ghost function LinesOf(t: Tree, threshold: real, q: Path): nat
    requires [] in t
  {
    multiset(Nodes(PrintFrom(t, [], "", "", Settings(t[[]].totalRuntime, threshold))))[q]
  }

  /** The report shows `q`, once, exactly if it is a node with a name, its largest time over ranks, counted for all of
      them, reaches the threshold, and no tie hides it. */
  ghost predicate ReportsExactly(t: Tree, threshold: real, q: Path) {
    && [] in t
    && LinesOf(t, threshold, q) == (
         if q in t && KeyOf(q).name != "" && Reaches(t[q].maxRuntime * t[q].commSize, t[[]].totalRuntime, threshold)
            && !Hidden(t, q) then 1 else 0)
    && (NoTies(t) ==> !Hidden(t, q))
  }

  lemma NestedReport(t: Tree, threshold: real, q: Path)
    requires NestedBy(Total, t) && MaxFalls(t) && (q in t ==> 0 <= t[q].maxRuntime)
    ensures ReportsExactly(t, threshold, q)
  {
    hide IsBelow, Reaches, PrintFrom, Hidden, NoTies, MaxFalls;
    assert Read(Total, t)([]) == t[[]].totalRuntime;
    var s := Settings(t[[]].totalRuntime, threshold);
    OnlyTiesHide(t, s, q);
    if q in t {
      ThresholdIs(s, t[q]);
    }
    if NoTies(t) {
      NoTiesNoneHidden(t, q);
    }
  }

  /** The time each run spent at a path. */
  ghost function ElapsedAt(runs: seq<RankRun>, q: Path): seq<int> {
    seq(|runs|, r requires 0 <= r < |runs| => P.Elapsed(runs[r].events, q))
  }

  ghost predicate BegunSomewhere(runs: seq<RankRun>, q: Path) {
    exists r :: 0 <= r < |runs| && P.Begins(runs[r].events, q) > 0
  }

  /** What one rank brings for a path below the root: the time its events spent there. */
  lemma TotalsElapsed(runs: seq<RankRun>, q: Path)
    requires AllComplete(runs) && q != []
    ensures Totals(RankTrees(runs), q) == ElapsedAt(runs, q)
    ensures q in Union(RankTrees(runs)) <==> BegunSomewhere(runs, q)
    ensures forall r :: 0 <= r < |runs| ==> 0 <= ElapsedAt(runs, q)[r]
  {
    hide RankTree, P.Begins, P.Elapsed;
    var trees := RankTrees(runs);
    forall r | 0 <= r < |runs|
      ensures (q in trees[r] <==> P.Begins(runs[r].events, q) > 0) && 0 <= P.Elapsed(runs[r].events, q)
      ensures At(trees[r], q).totalRuntime == P.Elapsed(runs[r].events, q)
    {
      RankTreeCounts(runs[r], q);
      RankTreeHolds(runs[r]);
      NotNegative(Total, trees[r], q);
      if q !in trees[r] {
        P.NothingElapsed(runs[r].events, q);
      }
    }
    if r :| 0 <= r < |runs| && P.Begins(runs[r].events, q) > 0 {
      assert q in trees[r];
    }
  }

  /** In terms of the events alone, on how many lines of the top-down report `q` is to be. */
  ghost function LinesDue(runs: seq<RankRun>, hidden: bool, threshold: real, q: Path): nat
    requires runs != []
  {
    if q != [] && Last(q).name != "" && BegunSomewhere(runs, q) && !hidden
       && Reaches(MaxInts(ElapsedAt(runs, q)) * |runs|, SumInts(Durations(runs)), threshold) then 1 else 0
  }

  /** In terms of the events alone: the top-down report of any rank shows, once each, the named paths begun on some
      rank whose largest time over ranks, counted for all of them, is that percentage of all ranks' run times, and
      which no tie hides. */
  lemma TopDownReport(runs: seq<RankRun>, r: nat, threshold: real, q: Path)
    requires AllComplete(runs) && r < |runs|
    ensures var t := ReducedTree(RankTrees(runs), r);
      && ReportsExactly(t, threshold, q) && t[[]].totalRuntime == SumInts(Durations(runs))
      && LinesOf(t, threshold, q) == LinesDue(runs, Hidden(t, q), threshold, q)
  {
    hide NestedBy, RankTree, MaxFalls, LinesOf, Reaches, Hidden, NoTies, BegunSomewhere;
    var trees := RankTrees(runs);
    AllNested(runs);
    ReducedNested(Total, trees, r);
    ReducedMaxFalls(trees, r);
    RootSum(runs, r);
    assert KeyOf([]).name == "";
    if q != [] {
      TotalsElapsed(runs, q);
    }
    RootMax(runs, r);
    NestedReport(ReducedTree(trees, r), threshold, q);
  }

  lemma RootMax(runs: seq<RankRun>, r: nat)
    requires AllComplete(runs) && r < |runs|
    ensures [] in ReducedTree(RankTrees(runs), r) && 0 <= ReducedTree(RankTrees(runs), r)[[]].maxRuntime
  {
    hide RankTree, NestedBy;
    var trees := RankTrees(runs);
    RankTreeHolds(runs[0]);
    assert [] in trees[0];
    NotNegative(Total, trees[0], []);
    AtRead(Total, trees[0], []);
    assert Totals(trees, [])[0] >= 0;
  }

  /** Each rank turns its reduced tree bottom-up, and the second reduction ends as well. */
  lemma BottomUpRun(runs: seq<RankRun>) returns (steps: nat)
    requires AllComplete(runs)
    ensures var b := BottomUps(RankTrees(runs));
      var w := After(Start(b), steps);
      && |w| == |runs| && AllDone(w)
      && forall r :: 0 <= r < |w| ==>
           && w[r].tree == ReducedTree(b, r)
           && NestedBy(Total, w[r].tree) && NestedBy(KokkosTotal, w[r].tree) && MaxFalls(w[r].tree)
  {
    hide NestedBy, ReducedTree, Ready, Start, RankTree, MaxFalls, Inverted;
    var b := BottomUps(RankTrees(runs));
    BottomUpsReady(RankTrees(runs));
    steps := ReductionCorrect(b);
    forall r | 0 <= r < |runs|
      ensures NestedBy(Total, ReducedTree(b, r)) && NestedBy(KokkosTotal, ReducedTree(b, r))
      ensures MaxFalls(ReducedTree(b, r))
    {
      ReducedNested(Total, b, r);
      ReducedNested(KokkosTotal, b, r);
      ReducedMaxFalls(b, r);
    }
  }

  /** The bottom-up report, which is reduced a second time: the same of the nodes of the bottom-up tree of the reduced
      totals, whose own totals count as that percentage of all ranks' run times. */
  lemma BottomUpReport(runs: seq<RankRun>, r: nat, threshold: real, q: Path)
    requires AllComplete(runs) && r < |runs|
    ensures var b, t := BottomUps(RankTrees(runs))[r], ReducedTree(BottomUps(RankTrees(runs)), r);
      && ReportsExactly(t, threshold, q) && t[[]].totalRuntime == |runs| * SumInts(Durations(runs))
      && LinesOf(t, threshold, q) == (
           if q in b && KeyOf(q).name != "" && !Hidden(t, q)
              && Reaches(b[q].totalRuntime, SumInts(Durations(runs)), threshold) then 1 else 0)
  {
    hide NestedBy, RankTree, ReducedTree, MaxFalls, LinesOf, Reaches, Hidden, NoTies, BottomUps;
    var trees := RankTrees(runs);
    var b := BottomUps(trees);
    assert |b| == |trees| by { SecondMax(trees, r, q); }
    AllNested(runs);
    BottomUpsReady(trees);
    ReducedNested(Total, b, r);
    ReducedMaxFalls(b, r);
    RootSum(runs, r);
    BottomUpRoot(trees, r);
    SecondMax(trees, r, q);
    NestedReport(ReducedTree(b, r), threshold, q);
    if q in b[r] {
      ReachesScaled(|runs|, b[r][q].totalRuntime, SumInts(Durations(runs)), threshold);
    }
  }

  /** Reduced a second time, a bottom-up node's largest time is what every rank computed. */
  lemma SecondMax(trees: seq<Tree>, r: nat, q: Path)
    requires r < |trees|
    ensures |BottomUps(trees)| == |trees|
    ensures var b, t := BottomUps(trees)[r], ReducedTree(BottomUps(trees), r);
      && (q in t <==> q in b)
      && (q in b ==> t[q].maxRuntime == b[q].totalRuntime && t[q].commSize == |trees| && 0 <= b[q].totalRuntime)
  {
    hide Inverted, NestedBy;
    var b := BottomUps(trees);
    BottomUpsReady(trees);
    forall i | 0 <= i < |trees| ensures b[i].Keys == b[r].Keys { SameBottomUp(trees, r, i); }
    if q in b[r] {
      forall i | 0 <= i < |trees| ensures Totals(b, q)[i] == b[r][q].totalRuntime { SameBottomUp(trees, r, i); }
      NotNegative(Total, b[r], q);
    }
  }

  lemma ReachesScaled(n: nat, part: int, whole: int, threshold: real)
    requires n > 0
    ensures Reaches(part * n, n * whole, threshold) <==> Reaches(part, whole, threshold)
  {
    var x, y, m := threshold * whole as real, 100.0 * part as real, n as real;
    assert (part * n) as real == part as real * m && (n * whole) as real == m * whole as real;
    assert threshold * (m * whole as real) == m * x && 100.0 * (part as real * m) == m * y;
    if x <= y {
      assert m * x <= m * y;
    } else {
      assert m * x > m * y;
    }
  }

  // ---- A process without MPI ----

  /** Every node has a communicator of one. */
  lemma RankTreeAlone(run: RankRun, p: Path)
    requires Complete(run) && p in RankTree(run)
    ensures RankTree(run)[p].commSize == 1
  {
    P.RunRefines(run.start, run.events);
    FinishedNested(run.start, run.events, run.end);
    assert P.CountAgrees(P.Run(run.start, run.events).tree, run.events, p);
  }

  ghost predicate Alone(t: Tree) {
    forall p :: p in t ==> t[p].commSize == 1
  }

  /** Where times are nested, largest times never grow downward, and the report is exact but for ties. */
  lemma AloneReport(t: Tree, threshold: real, q: Path)
    requires NestedBy(Total, t) && Alone(t)
    ensures var u := ReducedAlone(t, t.Keys);
      && NestedBy(Total, u) && MaxFalls(u)
      && ReportsExactly(u, threshold, q) && u[[]].totalRuntime == t[[]].totalRuntime
      && (q in t ==> u[q].maxRuntime == t[q].totalRuntime && u[q].avgRuntime == t[q].totalRuntime as real)
      && LinesOf(u, threshold, q) == (
           if q in t && KeyOf(q).name != "" && !Hidden(u, q)
              && Reaches(t[q].totalRuntime, t[[]].totalRuntime, threshold) then 1 else 0)
  {
    hide LinesOf, Reaches, Hidden, NoTies;
    var u := ReducedAlone(t, t.Keys);
    AloneNested(t);
    forall c {:trigger Parent(c)} | c in u && c != [] && Parent(c) in u
      ensures u[c].maxRuntime <= u[Parent(c)].maxRuntime && u[c].commSize == u[Parent(c)].commSize
    {
      ChildWithin(Total, t, c);
    }
    NotNegative(Total, t, q);
    NestedReport(u, threshold, q);
  }

  lemma AloneNested(t: Tree)
    requires NestedBy(Total, t)
    ensures NestedBy(Total, ReducedAlone(t, t.Keys))
  {
    var u := ReducedAlone(t, t.Keys);
    forall p | p in u ensures 0 <= Read(Total, u)(p) && Sum(Children(u, p), Read(Total, u)) <= Read(Total, u)(p) {
      assert Children(u, p) == Children(t, p);
      SumCongruent(Children(t, p), Read(Total, u), Read(Total, t));
    }
  }

  /** Both reports of a complete run without MPI. The top-down one, in terms of the events alone: once each, the named
      paths begun whose time is that percentage of the run time, and which no tie hides. */
  lemma RunReports(run: RankRun, threshold: real, q: Path)
    requires Complete(run)
    ensures var t := ReducedAlone(RankTree(run), RankTree(run).Keys);
      && NestedBy(Total, t) && MaxFalls(t) && ReportsExactly(t, threshold, q)
      && t[[]].totalRuntime == run.end - run.start
      && LinesOf(t, threshold, q) == LinesDue([run], Hidden(t, q), threshold, q)
    ensures var t := ReducedAlone(RankTree(run), RankTree(run).Keys);
      var i := ReducedAlone(Inverted(t), Inverted(t).Keys);
      && NestedBy(Total, i) && MaxFalls(i) && ReportsExactly(i, threshold, q)
      && i[[]].totalRuntime == run.end - run.start
      && LinesOf(i, threshold, q) == (
           if q in Inverted(t) && KeyOf(q).name != "" && !Hidden(i, q)
              && Reaches(Inverted(t)[q].totalRuntime, run.end - run.start, threshold) then 1 else 0)
  {
    hide NestedBy, RankTree, ReportsExactly, MaxFalls, Inverted, LinesOf, Reaches, Hidden, P.Begins, P.Elapsed;
    var r := RankTree(run);
    var t := ReducedAlone(r, r.Keys);
    RankTreeHolds(run);
    forall p | p in r ensures r[p].commSize == 1 { RankTreeAlone(run, p); }
    AloneReport(r, threshold, q);
    InvertedNested(t);
    NestedBoth(Inverted(t));
    InvertedAlone(t);
    AloneReport(Inverted(t), threshold, q);
    NestedRoot(t);
    assert KeyOf([]).name == "";
    OneRun(run, q);
  }

  lemma OneRun(run: RankRun, q: Path)
    ensures MaxInts(ElapsedAt([run], q)) == P.Elapsed(run.events, q) && SumInts(Durations([run])) == run.end - run.start
    ensures BegunSomewhere([run], q) <==> P.Begins(run.events, q) > 0
  {
    assert ElapsedAt([run], q) == [P.Elapsed(run.events, q)];
    assert Durations([run]) == [run.end - run.start];
    assert [run.end - run.start][..0] == [];
    assert [run][0] == run;
  }

  lemma InvertedAlone(t: Tree)
    ensures Alone(Inverted(t))
  {
  }

  lemma NestedRoot(t: Tree)
    requires NestedBy(Total, t)
    ensures [] in t && [] in Inverted(t) && Inverted(t)[[]].totalRuntime == t[[]].totalRuntime
  {
    forall p | p in t ensures ChildrenFit(Total, t, p) { NestedFits(Total, t, p); }
    RootConserved(Total, t);
    InvertedDomain(t, []);
  }

  // ---- The bottom-up tree of a run ----

  /** The time an activation of a path spent outside the frames begun in it; for the root, outside all frames. */
  ghost function OwnTimeAt(run: RankRun): Path -> int
    requires Complete(run)
  {
    q => TotalAt(RankTree(run))(q) - Sum(Children(RankTree(run), q), TotalAt(RankTree(run)))
  }

  ghost function CallsMade(es: seq<P.Event>): Path -> int {
    q => P.Begins(es, q) + if q == [] then 1 else 0
  }

  /** What is left of a node's columns without its children is its own part: no clamp has a say in it. */
  lemma OwnParts(run: RankRun, q: Path)
    requires Complete(run) && q in RankTree(run)
    ensures SelfTime(RankTree(run))(q) == OwnTimeAt(run)(q)
    ensures SelfKokkos(RankTree(run))(q) == KernelTimeAt(run.events)(q)
    ensures CallsAt(RankTree(run))(q) == CallsMade(run.events)(q)
  {
    OwnTimes(run, q);
    OwnKokkosTime(run, q);
    OwnCalls(run, q);
  }

  lemma OwnTimes(run: RankRun, q: Path)
    requires Complete(run) && q in RankTree(run)
    ensures SelfTime(RankTree(run))(q) == OwnTimeAt(run)(q)
  {
    RankTreeHolds(run);
    hide RankTree;
    NestedFits(Total, RankTree(run), q);
  }

  lemma OwnKokkosTime(run: RankRun, q: Path)
    requires Complete(run) && q in RankTree(run)
    ensures SelfKokkos(RankTree(run))(q) == KernelTimeAt(run.events)(q)
  {
    P.RunRefines(run.start, run.events);
    FinishedNested(run.start, run.events, run.end);
    var t := Finished(P.Run(run.start, run.events).tree, run.end);
    assert OwnKokkos(t)(q) == KernelTimeAt(run.events)(q) by {
      assert P.CountAgrees(P.Run(run.start, run.events).tree, run.events, q);
    }
    hide P.Refines, Finished, P.Run, OwnKokkos, KernelTimeAt, Adopted;
    NestedWellFormed(t);
    forall p | p in t ensures 0 <= OwnKokkos(t)(p) { OwnNotNegative(run, p); }
    assert q in t by { AdoptedKeys(t); }
    AdoptedKokkosAt(t, q);
  }

  lemma AdoptedKeys(t: Tree)
    ensures Adopted(t).Keys == t.Keys
  {
  }

  lemma OwnCalls(run: RankRun, q: Path)
    requires Complete(run) && q in RankTree(run)
    ensures CallsAt(RankTree(run))(q) == CallsMade(run.events)(q)
  {
    P.RunRefines(run.start, run.events);
    FinishedNested(run.start, run.events, run.end);
    assert P.CountAgrees(P.Run(run.start, run.events).tree, run.events, q);
  }

  /** The bottom-up tree of a run, in terms of its events: at every leaf-first path, over the nodes whose walk to the
      root begins with it, the sums of the time spent in them alone, of the time of those that are kernels, and of the
      times they were begun. */
  lemma RunBottomUp(run: RankRun, p: Path)
    requires Complete(run) && p in Inverted(RankTree(run))
    ensures var i, under := Inverted(RankTree(run))[p], Under(RankTree(run).Keys, p);
      && i.totalRuntime == Sum(under, OwnTimeAt(run))
      && i.totalKokkosRuntime == Sum(under, KernelTimeAt(run.events))
      && i.numberOfCalls == Sum(under, CallsMade(run.events))
  {
    var under := Under(RankTree(run).Keys, p);
    assert forall q :: q in under ==> q in RankTree(run);
    hide *;
    InvertedAt(RankTree(run), p);
    OwnSums(run, under);
  }

  lemma OwnSums(run: RankRun, under: set<Path>)
    requires Complete(run) && forall q :: q in under ==> q in RankTree(run)
    ensures Sum(under, SelfTime(RankTree(run))) == Sum(under, OwnTimeAt(run))
    ensures Sum(under, SelfKokkos(RankTree(run))) == Sum(under, KernelTimeAt(run.events))
    ensures Sum(under, CallsAt(RankTree(run))) == Sum(under, CallsMade(run.events))
  {
    hide *;
    var t := RankTree(run);
    forall q | q in under
      ensures SelfTime(t)(q) == OwnTimeAt(run)(q) && SelfKokkos(t)(q) == KernelTimeAt(run.events)(q)
      ensures CallsAt(t)(q) == CallsMade(run.events)(q)
    {
      OwnParts(run, q);
    }
    SumCongruent(under, SelfTime(t), OwnTimeAt(run));
    SumCongruent(under, SelfKokkos(t), KernelTimeAt(run.events));
    SumCongruent(under, CallsAt(t), CallsMade(run.events));
  }

  /** The local reduction before it makes no difference to the bottom-up tree. */
  lemma InvertedTwice(t: Tree)
    ensures Inverted(ReducedAlone(t, t.Keys)) == Inverted(t)
  {
    var u := ReducedAlone(t, t.Keys);
    assert u.Keys == t.Keys;
    forall q ensures SelfTime(u)(q) == SelfTime(t)(q) && SelfKokkos(u)(q) == SelfKokkos(t)(q) {
      assert Children(u, q) == Children(t, q);
      SumCongruent(Children(t, q), TotalAt(u), TotalAt(t));
      SumCongruent(Children(t, q), KokkosAt(u), KokkosAt(t));
    }
    forall p | p in Inverted(t) ensures Inverted(u)[p] == Inverted(t)[p] {
      var under := Under(t.Keys, p);
      SumCongruent(under, SelfTime(u), SelfTime(t));
      SumCongruent(under, SelfKokkos(u), SelfKokkos(t));
      SumCongruent(under, CallsAt(u), CallsAt(t));
    }
  }
}
