/** Whole runs of the reduction: it never stalls, it ends, and every rank ends with the same tree. */
module Agreement {
  import opened CallTree
  import opened Mpi
  import opened Reduction
  import opened Lockstep

  const FIRST := Shared(SumTotal, [[]], 0, 0, [])

  ghost predicate Ready(trees: seq<Tree>) {
    trees != [] && forall r :: 0 <= r < |trees| ==> WellFormed(trees[r])
  }

  lemma StartExplained(trees: seq<Tree>)
    requires Ready(trees)
    ensures Explains(FIRST, trees, Start(trees))
  {
    var s := FIRST;
    assert s.order[0] in trees[0];
    forall r | 0 <= r < |trees| ensures Agrees(Start(trees)[r], s, trees, r) {
      assert s.order[s.pos + 1..] == [];
      assert trees[r].Keys + Entered(s) == trees[r].Keys;
    }
  }

  lemma ResumeAgrees(p: Process, s: Shared, trees: seq<Tree>, r: nat)
    requires Good(s, trees) && !s.pc.Done? && r < |trees| && Agrees(p, s, trees, r)
    ensures Advance(s, trees).pos <= |Advance(s, trees).order|
    ensures Agrees(Resume(p, Result(s, trees)), Advance(s, trees), trees, r)
  {
    hide Good, Agrees, Resume, Result, Advance;
    GoodStep(s, trees);
    match s.pc {
      case SumKokkos => ResumeKokkos(p, s, trees, r);
      case BcastCount => ResumeCount(p, s, trees, r);
      case BcastLength => ResumeNames(p, s, trees, r);
      case BcastName => ResumeNames(p, s, trees, r);
      case BcastKind => ResumeKind(p, s, trees, r);
      case NextRoot => ResumeNextRoot(p, s, trees, r);
      case _ => ResumeSums(p, s, trees, r);
    }
  }

  lemma GoodStep(s: Shared, trees: seq<Tree>)
    requires Good(s, trees) && !s.pc.Done?
    ensures Good(Advance(s, trees), trees) && Advance(s, trees).pos <= |Advance(s, trees).order|
  {
    assert Good(Advance(s, trees), trees) by {
      hide Good, Advance;
      match s.pc {
        case BcastCount => GoodCount(s, trees);
        case BcastLength => GoodNames(s, trees);
        case BcastName => GoodNames(s, trees);
        case BcastKind => GoodKind(s, trees);
        case NextRoot => GoodNextRoot(s, trees);
        case _ => GoodSums(s, trees);
      }
    }
  }

  /** While it is not over, the next collective is matched by all ranks, and all go on together. */
  lemma StepExplained(s: Shared, trees: seq<Tree>, w: World)
    requires Explains(s, trees, w) && !s.pc.Done?
    ensures Matched(w) && Explains(Advance(s, trees), trees, Next(w))
  {
    hide Good, Agrees, Resume, Result, Advance, Outcome;
    AllMatch(s, trees, w);
    GoodPos(s, trees);
    assert Agrees(w[0], s, trees, 0);
    SamePc(w[0], s, trees, 0);
    OutcomeIs(s, trees, w);
    GoodStep(s, trees);
    forall r | 0 <= r < |w| ensures Agrees(Next(w)[r], Advance(s, trees), trees, r) {
      ResumeAgrees(w[r], s, trees, r);
    }
  }

  lemma GoodPos(s: Shared, trees: seq<Tree>)
    requires Good(s, trees)
    ensures trees != [] && s.pos <= |s.order| && (s.pc.Done? <==> s.pos == |s.order|)
  {
  }

  lemma SamePc(p: Process, s: Shared, trees: seq<Tree>, r: nat)
    requires Good(s, trees) && r < |trees| && Agrees(p, s, trees, r)
    ensures p.pc == s.pc && p.rank == r
    ensures s.pos < |s.order| ==> p.node == s.order[s.pos] && p.queue == s.order[s.pos + 1..]
    ensures s.pc.BcastCount? || s.pc.NextRoot? ==>
      p.root == s.root < |trees| && s.pos < |s.order| && p.pending == Pending(trees[r], s.order[s.pos], s.order)
  {
    hide Pending, Closed, Union, WellFormed, ParentsFirst, TreeOf;
  }

  lemma DoneStays(s: Shared, trees: seq<Tree>, w: World)
    requires Explains(s, trees, w) && s.pc.Done?
    ensures AllDone(w) && Next(w) == w
  {
    hide Good;
    GoodPos(s, trees);
    forall r | 0 <= r < |w| ensures w[r].pc == Done {
      assert Agrees(w[r], s, trees, r);
      SamePc(w[r], s, trees, r);
    }
    assert 0 < |w| ==> CallOf(w[0]) == NoCall;
  }

  lemma {:induction false} Reached(s: Shared, trees: seq<Tree>, w: World, steps: nat) returns (s': Shared)
    requires Explains(s, trees, w)
    ensures Explains(s', trees, After(w, steps))
    decreases steps
  {
    hide Good, Agrees, Advance, Next;
    if steps == 0 {
      s' := s;
    } else if s.pc.Done? {
      DoneStays(s, trees, w);
      s' := Reached(s, trees, Next(w), steps - 1);
    } else {
      StepExplained(s, trees, w);
      s' := Reached(Advance(s, trees), trees, Next(w), steps - 1);
    }
  }

  /** At every step of every run, either all ranks are done or all of them issue the same collective,
      with the same root and count: no rank ever waits for a call another rank does not make. */
  lemma NeverStuck(trees: seq<Tree>, steps: nat)
    requires Ready(trees)
    ensures AllDone(After(Start(trees), steps)) || Matched(After(Start(trees), steps))
  {
    hide Good, Agrees, Advance, Next, Start, Matched;
    StartExplained(trees);
    var s := Reached(FIRST, trees, Start(trees), steps);
    if s.pc.Done? {
      DoneStays(s, trees, After(Start(trees), steps));
    } else {
      AllMatch(s, trees, After(Start(trees), steps));
    }
  }

  // ---- The run ends ----

  function Phase(pc: Pc): nat {
    match pc
    case SumTotal => 4
    case MaxRuntime => 3
    case SumAvg => 2
    case SumKokkos => 1
    case _ => 0
  }

  function RoundPhase(pc: Pc): nat {
    if pc.BcastCount? then 2 else if InBroadcast(pc) then 1 else 0
  }

  function ChildPhase(pc: Pc): nat {
    match pc
    case BcastLength => 3
    case BcastName => 2
    case BcastKind => 1
    case _ => 0
  }

  ghost function Unprocessed(s: Shared, trees: seq<Tree>): set<Path>
    requires s.pos <= |s.order|
  {
    Union(trees) - set p | p in s.order[..s.pos]
  }

  lemma NodeProcessed(s: Shared, trees: seq<Tree>, s': Shared)
    requires Good(s, trees) && s.pos < |s.order| && s' == NextNode(s)
    ensures Unprocessed(s', trees) < Unprocessed(s, trees)
  {
    var node := s.order[s.pos];
    assert node in s'.order[..s'.pos];
    assert node in Unprocessed(s, trees) && node !in Unprocessed(s', trees);
    forall p | p in s.order[..s.pos] ensures p in s'.order[..s'.pos] {
      assert s'.order[..s'.pos] == s.order[..s.pos] + [node];
    }
  }

  /** `s'` is closer to the end than `s`. */
  ghost predicate CloserThan(s': Shared, s: Shared, trees: seq<Tree>)
    requires s.pos <= |s.order| && s'.pos <= |s'.order|
  {
    if Unprocessed(s', trees) != Unprocessed(s, trees) then Unprocessed(s', trees) < Unprocessed(s, trees)
    else if Phase(s'.pc) != Phase(s.pc) then Phase(s'.pc) < Phase(s.pc)
    else if s'.root != s.root then s.root < s'.root < |trees|
    else if RoundPhase(s'.pc) != RoundPhase(s.pc) then RoundPhase(s'.pc) < RoundPhase(s.pc)
    else if |s'.toSend| != |s.toSend| then |s'.toSend| < |s.toSend|
    else ChildPhase(s'.pc) < ChildPhase(s.pc)
  }

  lemma CloserRoot(s: Shared, trees: seq<Tree>)
    requires Good(s, trees) && s.pc.NextRoot?
    ensures Advance(s, trees).pos <= |Advance(s, trees).order| && CloserThan(Advance(s, trees), s, trees)
  {
    hide Pending, Closed, Union, WellFormed, ParentsFirst, Unprocessed, Rounds;
    var s' := Advance(s, trees);
    Election(s, trees);
    AfterElection(s, trees);
    if s'.pc.BcastCount? {
      SameProcessed(s, trees, s');
    } else {
      NodeProcessed(s, trees, s');
    }
  }

  lemma CloserKind(s: Shared, trees: seq<Tree>)
    requires Good(s, trees) && s.pc.BcastKind?
    ensures Advance(s, trees).pos <= |Advance(s, trees).order| && CloserThan(Advance(s, trees), s, trees)
  {
    hide Pending, Closed, Union, WellFormed, ParentsFirst, Unprocessed;
    SameProcessed(s, trees, Advance(s, trees));
  }

  lemma CloserSums(s: Shared, trees: seq<Tree>)
    requires Good(s, trees) && InSums(s.pc)
    ensures Advance(s, trees).pos <= |Advance(s, trees).order| && CloserThan(Advance(s, trees), s, trees)
  {
    hide Good, Unprocessed;
    GoodPos(s, trees);
    SameProcessed(s, trees, Advance(s, trees));
  }

  lemma CloserCount(s: Shared, trees: seq<Tree>)
    requires Good(s, trees) && s.pc.BcastCount?
    ensures Advance(s, trees).pos <= |Advance(s, trees).order| && CloserThan(Advance(s, trees), s, trees)
  {
    hide Good, Listing, Pending, Unprocessed;
    GoodPos(s, trees);
    var s' := Advance(s, trees);
    assert !s'.pc.BcastCount? && s'.order == s.order && s'.pos == s.pos && s'.root == s.root;
    SameProcessed(s, trees, s');
  }

  lemma CloserNames(s: Shared, trees: seq<Tree>)
    requires Good(s, trees) && (s.pc.BcastLength? || s.pc.BcastName?)
    ensures Advance(s, trees).pos <= |Advance(s, trees).order| && CloserThan(Advance(s, trees), s, trees)
  {
    hide Good, Unprocessed;
    GoodPos(s, trees);
    SameProcessed(s, trees, Advance(s, trees));
  }

  lemma Closer(s: Shared, trees: seq<Tree>)
    requires Good(s, trees) && !s.pc.Done?
    ensures Advance(s, trees).pos <= |Advance(s, trees).order| && CloserThan(Advance(s, trees), s, trees)
  {
    hide Good, Advance, Unprocessed, CloserThan;
    match s.pc {
      case NextRoot => CloserRoot(s, trees);
      case BcastKind => CloserKind(s, trees);
      case BcastCount => CloserCount(s, trees);
      case BcastLength => CloserNames(s, trees);
      case BcastName => CloserNames(s, trees);
      case _ => CloserSums(s, trees);
    }
  }

  lemma SameProcessed(s: Shared, trees: seq<Tree>, s': Shared)
    requires s.pos == s'.pos <= |s.order| && s.order <= s'.order
    ensures Unprocessed(s', trees) == Unprocessed(s, trees)
  {
    assert s'.order[..s.pos] == s.order[..s.pos];
  }

  lemma {:induction false} Finishes(s: Shared, trees: seq<Tree>, w: World) returns (steps: nat, s': Shared)
    requires Explains(s, trees, w) && s.pos <= |s.order|
    ensures Explains(s', trees, After(w, steps)) && s'.pc.Done?
    decreases Unprocessed(s, trees), Phase(s.pc), |trees| - s.root, RoundPhase(s.pc), |s.toSend|, ChildPhase(s.pc)
  {
    hide Good, Agrees, Advance, Next, Unprocessed, Phase, RoundPhase, ChildPhase;
    if s.pc.Done? {
      steps, s' := 0, s;
    } else {
      StepExplained(s, trees, w);
      Closer(s, trees);
      var rest;
      rest, s' := Finishes(Advance(s, trees), trees, Next(w));
      steps := rest + 1;
    }
  }

  // ---- What every rank ends with ----

  lemma {:induction false} EverythingEntered(s: Shared, trees: seq<Tree>, r: nat, p: Path)
    requires Good(s, trees) && s.pc.Done? && r < |trees| && p in trees[r]
    ensures p in s.order
    decreases |p|
  {
    if p != [] {
      var q, k := Parent(p), Last(p);
      assert q + [k] == p;
      EverythingEntered(s, trees, r, q);
      var i :| 0 <= i < |s.order| && s.order[i] == q;
      assert Closed(trees, s.order, s.order[i]);
      InChildKeys(trees[r], q, k);
      assert k !in Pending(trees[r], q, s.order);
    }
  }

  lemma FinalTree(s: Shared, trees: seq<Tree>, r: nat)
    requires Good(s, trees) && s.pc.Done? && r < |trees|
    ensures TreeOf(s, trees, r) == ReducedTree(trees, r)
  {
    assert s.order[..s.pos] == s.order;
    forall p ensures p in Union(trees) <==> p in s.order {
      if p in Union(trees) {
        var q :| 0 <= q < |trees| && p in trees[q];
        EverythingEntered(s, trees, q, p);
      }
    }
  }

  /** Whatever trees the ranks start from, the reduction ends, and rank `r` then holds the union of
      all trees with the sums and maxima over all ranks. */
  lemma ReductionCorrect(trees: seq<Tree>) returns (steps: nat)
    requires Ready(trees)
    ensures AllDone(After(Start(trees), steps)) && |After(Start(trees), steps)| == |trees|
    ensures forall r :: 0 <= r < |trees| ==> After(Start(trees), steps)[r].tree == ReducedTree(trees, r)
  {
    hide Good, Agrees, Advance, Next, Start, TreeOf, ReducedTree;
    StartExplained(trees);
    var s;
    steps, s := Finishes(FIRST, trees, Start(trees));
    var w := After(Start(trees), steps);
    DoneStays(s, trees, w);
    GoodPos(s, trees);
    forall r | 0 <= r < |trees| ensures w[r].tree == ReducedTree(trees, r) {
      FinalTree(s, trees, r);
      SameTreeHeld(w[r], s, trees, r);
    }
  }

  lemma SameTreeHeld(p: Process, s: Shared, trees: seq<Tree>, r: nat)
    requires r < |trees| && s.pos <= |s.order| && Agrees(p, s, trees, r)
    ensures p.tree == TreeOf(s, trees, r)
  {
    hide Pending, TreeOf;
  }

  /** All ranks work on the same node and queue the same paths in the same order, none twice. */
  lemma SameQueues(trees: seq<Tree>, steps: nat)
    requires Ready(trees)
    ensures var w := After(Start(trees), steps);
      && |w| == |trees|
      && (forall r :: 0 <= r < |w| ==> w[r].pc == w[0].pc)
      && (!w[0].pc.Done? ==>
            && (forall r :: 0 <= r < |w| ==> w[r].node == w[0].node && w[r].queue == w[0].queue)
            && w[0].node !in w[0].queue
            && (forall i, j :: 0 <= i < j < |w[0].queue| ==> w[0].queue[i] != w[0].queue[j]))
  {
    hide Good, Agrees, Advance, Next, Start;
    StartExplained(trees);
    var s := Reached(FIRST, trees, Start(trees), steps);
    var w := After(Start(trees), steps);
    GoodPos(s, trees);
    forall r | 0 <= r < |w|
      ensures w[r].pc == s.pc
      ensures s.pos < |s.order| ==> w[r].node == s.order[s.pos] && w[r].queue == s.order[s.pos + 1..]
    {
      assert Agrees(w[r], s, trees, r);
      SamePc(w[r], s, trees, r);
    }
    NoRepeats(s, trees);
  }

  lemma NoRepeats(s: Shared, trees: seq<Tree>)
    requires Good(s, trees)
    ensures forall i, j :: 0 <= i < j < |s.order| ==> s.order[i] != s.order[j]
  {
  }

  /** When a round ends, either a strictly higher rank is elected to broadcast next, and it has something
      to send, or no rank has anything left and the exchange is over. */
  lemma RoundsRise(trees: seq<Tree>, steps: nat)
    requires Ready(trees) && After(Start(trees), steps) != [] && After(Start(trees), steps)[0].pc.NextRoot?
    ensures var w, w' := After(Start(trees), steps), Next(After(Start(trees), steps));
      && |w'| == |w| == |trees|
      && (if w'[0].pc.BcastCount? then w[0].root < w'[0].root < |trees| && w[w'[0].root].pending != {}
          else forall r :: 0 <= r < |w| ==> w[r].pending == {})
  {
    hide Good, Agrees, Advance, Next, Start, Pending;
    StartExplained(trees);
    var s := Reached(FIRST, trees, Start(trees), steps);
    var w := After(Start(trees), steps);
    GoodPos(s, trees);
    forall r | 0 <= r < |w| ensures Agrees(w[r], s, trees, r) && w[r].pc == s.pc
      && (s.pc.NextRoot? ==>
            w[r].root == s.root && s.pos < |s.order| && w[r].pending == Pending(trees[r], s.order[s.pos], s.order))
    {
      SamePc(w[r], s, trees, r);
    }
    StepExplained(s, trees, w);
    GoodStep(s, trees);
    assert Agrees(Next(w)[0], Advance(s, trees), trees, 0);
    SamePc(Next(w)[0], Advance(s, trees), trees, 0);
    Election(s, trees);
    AfterElection(s, trees);
  }

  /** The first `steps` steps from here all belong to the exchange of one node's children. */
  ghost predicate Exchanging(w: World, steps: nat)
    decreases steps
  {
    steps > 0 ==> w != [] && !InSums(w[0].pc) && !w[0].pc.Done? && Exchanging(Next(w), steps - 1)
  }

  /** How many of these steps end a round. */
  ghost function RoundsEnded(w: World, steps: nat): nat
    decreases steps
  {
    if steps == 0 || w == [] then 0
    else (if w[0].pc.NextRoot? then 1 else 0) + RoundsEnded(Next(w), steps - 1)
  }

  lemma RootInRange(s: Shared, trees: seq<Tree>)
    requires Good(s, trees) && !InSums(s.pc) && !s.pc.Done?
    ensures s.root < |trees|
  {
  }

  /** While children are exchanged the broadcaster changes only between rounds, and then it rises. */
  lemma RootMoves(s: Shared, trees: seq<Tree>)
    requires Good(s, trees) && !InSums(s.pc) && !s.pc.Done?
    ensures var s' := Advance(s, trees);
      !InSums(s'.pc) && !s'.pc.Done? ==> if s.pc.NextRoot? then s.root < s'.root < |trees| else s.root == s'.root
  {
    hide Good;
    if s.pc.NextRoot? {
      Election(s, trees);
      AfterElection(s, trees);
    }
  }

  lemma FirstRank(s: Shared, trees: seq<Tree>, w: World)
    requires Explains(s, trees, w)
    ensures w != [] && w[0].pc == s.pc
  {
    hide Good, Agrees;
    GoodPos(s, trees);
    assert Agrees(w[0], s, trees, 0);
    SamePc(w[0], s, trees, 0);
  }

  lemma {:induction false} RoundsFit(s: Shared, trees: seq<Tree>, w: World, steps: nat)
    requires Explains(s, trees, w) && Exchanging(w, steps) && steps > 0
    ensures s.root < |trees| && RoundsEnded(w, steps) <= |trees| - s.root
    decreases steps
  {
    hide Good, Agrees, Advance, Next;
    FirstRank(s, trees, w);
    StepExplained(s, trees, w);
    RootInRange(s, trees);
    if steps > 1 {
      FirstRank(Advance(s, trees), trees, Next(w));
      RootMoves(s, trees);
      RoundsFit(Advance(s, trees), trees, Next(w), steps - 1);
    }
  }

  /** However long the exchange of one node's children goes on, it has at most as many rounds as there are ranks. */
  lemma RoundBound(trees: seq<Tree>, before: nat, steps: nat)
    requires Ready(trees) && Exchanging(After(Start(trees), before), steps)
    ensures RoundsEnded(After(Start(trees), before), steps) <= |trees|
  {
    hide Good, Agrees, Advance, Next, Start;
    if steps > 0 {
      StartExplained(trees);
      var s := Reached(FIRST, trees, Start(trees), before);
      RoundsFit(s, trees, After(Start(trees), before), steps);
    }
  }

  lemma AfterElection(s: Shared, trees: seq<Tree>)
    requires Good(s, trees) && s.pc.NextRoot?
    ensures var m := MinInts(RootProposals(s, trees));
      (Advance(s, trees).pc.BcastCount? <==> 0 <= m < |trees|) && (0 <= m < |trees| ==> Advance(s, trees).root == m)
  {
    hide Pending;
  }
}
