/** Two short runs on which the report does not say what it is meant to say. */
module ShortRuns {
  import opened Sums
  import opened CallTree
  import P = Profile
  import opened Nesting
  import opened Printing
  import opened Mpi
  import opened Reduction
  import opened WholeRun

  lemma NothingYet(start: int)
    ensures P.Open([]) == [] && P.WellNested([]) && Monotone(start, []) && Clock(start, []) == start
    ensures forall p :: P.Begins([], p) == 0 && P.Elapsed([], p) == 0
  {
  }

  /** A run with one more event. */
  lemma OneMore(start: int, es: seq<P.Event>, e: P.Event)
    requires P.WellNested(es) && Monotone(start, es) && Clock(start, es) <= e.time && !e.LeaveKernel?
    requires e.Enter? || P.Open(es) != []
    ensures P.WellNested(es + [e]) && Monotone(start, es + [e]) && Clock(start, es + [e]) == e.time
    ensures var open := P.Open(es);
      P.Open(es + [e]) == if e.Enter? then open + [P.Activation(e.key, e.time)] else open[..|open| - 1]
    ensures var keys := P.Keys(P.Open(es));
      forall p :: P.Begins(es + [e], p) == P.Begins(es, p) + if e.Enter? && keys + [e.key] == p then 1 else 0
    ensures var open := P.Open(es);
      forall p :: P.Elapsed(es + [e], p) ==
        P.Elapsed(es, p) + if !e.Enter? && P.Keys(open) == p then e.time - open[|open| - 1].begin else 0
  {
    var all := es + [e];
    assert all[..|es|] == es;
    forall i | 0 <= i < |all| ensures Clock(start, all[..i]) <= all[i].time {
      assert i < |es| ==> all[..i] == es[..i];
    }
  }

  const LOOP := Key(For, "a")
  const INNER := Key(For, "b")
  const REGION := Key(Region, "a")

  /** A loop that runs a loop for its whole five nanoseconds. */
  const LOOP_IN_LOOP := RankRun(0, [P.Enter(LOOP, 0)] + [P.Enter(INNER, 0)] + [P.Leave(5)] + [P.Leave(5)], 5)

  /** A loop and then a region of the same name, five nanoseconds each. */
  const TWO_OF_A_NAME := RankRun(0, [P.Enter(LOOP, 0)] + [P.Leave(5)] + [P.Enter(REGION, 5)] + [P.Leave(10)], 10)

  lemma LoopInLoop()
    ensures Complete(LOOP_IN_LOOP)
    ensures var es := LOOP_IN_LOOP.events;
      P.Begins(es, [LOOP]) == 1 && P.Begins(es, [LOOP, INNER]) == 1
      && P.Elapsed(es, [LOOP]) == 5 && P.Elapsed(es, [LOOP, INNER]) == 5
      && forall p :: P.Begins(es, p) > 0 ==> p == [LOOP] || p == [LOOP, INNER]
  {
    hide P.WellNested, P.Open, P.Begins, P.Elapsed, Monotone, Clock, P.Keys;
    var a := [P.Enter(LOOP, 0)];
    var b := a + [P.Enter(INNER, 0)];
    var c := b + [P.Leave(5)];
    NothingYet(0);
    assert [] + [P.Enter(LOOP, 0)] == a;
    OneMore(0, [], P.Enter(LOOP, 0));
    OneMore(0, a, P.Enter(INNER, 0));
    OneMore(0, b, P.Leave(5));
    OneMore(0, c, P.Leave(5));
    KeysOf(LOOP, INNER, 0);
    assert P.Open(a) == [P.Activation(LOOP, 0)];
    assert P.Open(b) == [P.Activation(LOOP, 0), P.Activation(INNER, 0)];
    assert P.Open(c) == [P.Activation(LOOP, 0)];
  }

  lemma KeysOf(a: Key, b: Key, begin: int)
    ensures P.Keys([]) == [] && P.Keys([P.Activation(a, begin)]) == [a]
    ensures P.Keys([P.Activation(a, begin), P.Activation(b, begin)]) == [a, b]
  {
  }

  lemma TwoOfAName()
    ensures Complete(TWO_OF_A_NAME)
    ensures var es := TWO_OF_A_NAME.events;
      P.Begins(es, [LOOP]) == 1 && P.Begins(es, [REGION]) == 1
      && P.Elapsed(es, [LOOP]) == 5 && P.Elapsed(es, [REGION]) == 5
  {
    hide P.WellNested, P.Open, P.Begins, P.Elapsed, Monotone, Clock, P.Keys;
    var a := [P.Enter(LOOP, 0)];
    var b := a + [P.Leave(5)];
    var c := b + [P.Enter(REGION, 5)];
    NothingYet(0);
    assert [] + [P.Enter(LOOP, 0)] == a;
    OneMore(0, [], P.Enter(LOOP, 0));
    OneMore(0, a, P.Leave(5));
    OneMore(0, b, P.Enter(REGION, 5));
    OneMore(0, c, P.Leave(10));
    KeysOf(LOOP, LOOP, 0);
    KeysOf(REGION, REGION, 5);
    assert P.Open(a) == [P.Activation(LOOP, 0)];
    assert P.Open(b) == [];
    assert P.Open(c) == [P.Activation(REGION, 5)];
  }

  /** A complete run in which a loop's Kokkos time is twice its time. */
  lemma KokkosOverTotal()
    ensures Complete(LOOP_IN_LOOP)
    ensures var t := RankTree(LOOP_IN_LOOP);
      [LOOP] in t && t[[LOOP]].totalRuntime == 5 && t[[LOOP]].totalKokkosRuntime == 10
  {
    hide RankTree, NestedBy, P.Begins, P.Elapsed;
    LoopInLoop();
    var run := LOOP_IN_LOOP;
    var t, f := RankTree(run), KernelTimeAt(run.events);
    RankTreeHolds(run);
    RankTreeAggregates(run, [LOOP]);
    SumPick(Subtree(t, [LOOP]), f, [LOOP]);
    SumPick(Subtree(t, [LOOP]) - {[LOOP]}, f, [LOOP, INNER]);
    assert Subtree(t, [LOOP]) - {[LOOP]} - {[LOOP, INNER]} == {};
  }

  /** A complete run whose report, reduced over one rank, should show a region and does not: it ties with a loop. */
  lemma TieHides()
    ensures Complete(TWO_OF_A_NAME) && AllComplete([TWO_OF_A_NAME])
    ensures var t := ReducedTree(RankTrees([TWO_OF_A_NAME]), 0);
      [] in t && t[[]].totalRuntime == 10
      && ShouldShow(t, Settings(10, 0.1), [REGION]) && Hidden(t, [REGION])
      && multiset(Nodes(PrintFrom(t, [], "", "", Settings(10, 0.1))))[[REGION]] == 0
  {
    hide RankTree, NestedBy, P.Begins, P.Elapsed, PrintFrom, Hidden, ReducedTree, Complete;
    TwoOfAName();
    var run, runs := TWO_OF_A_NAME, [TWO_OF_A_NAME];
    var t := ReducedTree(RankTrees(runs), 0);
    RankTreeHolds(run);
    assert RankTrees(runs) == [RankTree(run)];
    OneRank(RankTree(run), []);
    OneRank(RankTree(run), [LOOP]);
    OneRank(RankTree(run), [REGION]);
    assert t == ReducedTree([RankTree(run)], 0);
    TiedIsHidden(t, [LOOP], [REGION]);
    TopDownReport(runs, 0, 0.1, [REGION]);
  }

  lemma OneRank(t: Tree, p: Path)
    ensures p in t <==> p in ReducedTree([t], 0)
    ensures p in t ==>
      var d := ReducedTree([t], 0)[p];
      d.totalRuntime == d.maxRuntime == t[p].totalRuntime && d.commSize == 1
  {
    assert [t][0] == t;
    assert p in Union([t]) <==> p in t;
    if p in t {
      OneNumber(t[p].totalRuntime);
      assert Totals([t], p) == [t[p].totalRuntime];
    }
  }

  lemma OneNumber(i: int)
    ensures SumInts([i]) == MaxInts([i]) == i
  {
    assert [i][..0] == [];
  }
}
