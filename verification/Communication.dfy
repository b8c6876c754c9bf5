/** One rank's reduction within the run of all ranks: what the library has to deliver to it, and what it ends with. */
module Communication {
  import opened CallTree
  import opened Mpi
  import opened Reduction
  import opened Agreement

  /** The library delivers, from the `from`-th collective on, what the collectives of the ranks `w` come to. */
  ghost predicate Delivers(results: nat -> Value, from: nat, w: World) {
    forall i: nat :: Matched(After(w, i)) ==>
      results(from + i) == Outcome(CallOf(After(w, i)[0]), Contributions(After(w, i)))
  }

  lemma {:induction false} OneMoreStep(w: World, steps: nat)
    ensures After(w, steps + 1) == Next(After(w, steps))
    decreases steps
  {
    hide Next;
    if steps > 0 {
      OneMoreStep(Next(w), steps - 1);
    }
  }

  lemma NextOfRank(w: World, r: nat, v: Value)
    requires r < |w| && (AllDone(w) || Matched(w))
    requires Matched(w) ==> v == Outcome(CallOf(w[0]), Contributions(w))
    ensures |Next(w)| == |w| && Next(w)[r] == Resume(w[r], v)
  {
    hide Resume, Outcome;
    if !Matched(w) {
      DoneIsDone(w[r], v);
    }
  }

  /** A rank that is delivered what the ranks' collectives come to is where it is in the run of all ranks. */
  lemma {:induction false} RankFollows(w: World, r: nat, results: nat -> Value, from: nat, steps: nat)
    requires r < |w| && Delivers(results, from, w)
    requires forall i :: 0 <= i < steps ==> AllDone(After(w, i)) || Matched(After(w, i))
    ensures |After(w, steps)| == |w| && After(w, steps)[r] == Follow(w[r], results, from, steps)
    decreases steps
  {
    hide Resume, Matched, AllDone, Next, Outcome, After;
    if steps == 0 {
      NoSteps(w);
    } else {
      RankFollows(w, r, results, from, steps - 1);
      OneMoreStep(w, steps - 1);
      NextOfRank(After(w, steps - 1), r, results(from + steps - 1));
    }
  }

  lemma NoSteps(w: World)
    ensures After(w, 0) == w
  {
  }

  lemma AllDoneStays(w: World)
    requires AllDone(w)
    ensures Next(w) == w
  {
    assert w != [] ==> CallOf(w[0]) == NoCall;
  }

  lemma {:induction false} Rest(w: World, m: nat, n: nat)
    requires m <= n && AllDone(After(w, m))
    ensures After(w, n) == After(w, m)
    decreases n
  {
    hide Next, AllDone, After;
    if m < n {
      Rest(w, m, n - 1);
      OneMoreStep(w, n - 1);
      AllDoneStays(After(w, m));
    }
  }

  lemma DoneTogether(trees: seq<Tree>, i: nat, r: nat)
    requires Ready(trees) && r < |trees|
    ensures |After(Start(trees), i)| == |trees|
    ensures After(Start(trees), i)[r].pc.Done? <==> AllDone(After(Start(trees), i))
  {
    hide After, Start, Ready;
    SameQueues(trees, i);
  }

  /** For one rank: delivered what the collectives come to, its reduction ends after some number of them, with the
      union of all trees, the sums and the maxima. */
  lemma RankEnds(trees: seq<Tree>, r: nat, results: nat -> Value, from: nat) returns (steps: nat)
    requires Ready(trees) && r < |trees| && Delivers(results, from, Start(trees))
    ensures EndsAfter(StartNode(Starting(r, |trees|, trees[r])), results, from, steps)
    ensures Follow(StartNode(Starting(r, |trees|, trees[r])), results, from, steps).tree == ReducedTree(trees, r)
  {
    hide After, Next, ReducedTree, Ready, Follow, Delivers, StartNode, Matched, AllDone;
    var w := Start(trees);
    var enough := ReductionCorrect(trees);
    assert w[r] == StartNode(Starting(r, |trees|, trees[r]));
    hide Start;
    forall i: nat ensures AllDone(After(w, i)) || Matched(After(w, i)) { NeverStuck(trees, i); }
    forall i: nat ensures |After(w, i)| == |trees| && After(w, i)[r] == Follow(w[r], results, from, i) {
      DoneTogether(trees, 0, r);
      NoSteps(w);
      RankFollows(w, r, results, from, i);
    }
    steps := 0;
    while !Follow(w[r], results, from, steps).pc.Done?
      invariant steps <= enough
      invariant forall i :: 0 <= i < steps ==> !Follow(w[r], results, from, i).pc.Done?
      decreases enough - steps
    {
      DoneTogether(trees, enough, r);
      steps := steps + 1;
    }
    DoneTogether(trees, steps, r);
    Rest(w, steps, enough);
  }
}
