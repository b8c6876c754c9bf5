/** `reduce_over_mpi` as every rank runs it: a local program that only sees its own tree and the
    results of the collectives it takes part in. */
module Reduction {
  import opened CallTree
  import opened Mpi
  import Orders

  /** The collective a rank is about to issue. */
  datatype Pc =
    | SumTotal | MaxRuntime | SumAvg | SumKokkos
    | BcastCount | BcastLength | BcastName | BcastKind
    | NextRoot | Done

  datatype Process = Process(
    rank: nat,
    size: nat,
    pc: Pc,
    tree: Tree,
    queue: seq<Path>,
    node: Path,
    pending: set<Key>,     // children_to_process
    root: nat,             // bcast_rank
    toSend: seq<Key>,      // what the broadcasting rank has still to send in this round
    left: nat,             // children still to come in this round
    nameLen: nat,
    name: string
  )

  function At(t: Tree, p: Path): Data {
    if p in t then t[p] else NEW_NODE
  }

  /** The set in the order it is iterated: by name, then by kind. */
  function Listing(s: set<Key>): (r: seq<Key>)
    ensures |r| == |s| && forall k :: k in r <==> k in s
    ensures forall i, j :: 0 <= i < j < |r| ==> r[i] != r[j]
  {
    if s == {} then [] else
      Orders.LeastByPair(s);
      var k :| k in s && Orders.Least(s, Orders.PairLess, k);
      [k] + Listing(s - {k})
  }

  /** That order, spelled out. */
  lemma {:induction false} ListingSorted(s: set<Key>)
    ensures var r := Listing(s); forall i, j :: 0 <= i < j < |r| ==>
      || Orders.NamePrecedes(r[i].name, r[j].name)
      || (r[i].name == r[j].name && Orders.Rank(r[i].kind) < Orders.Rank(r[j].kind))
  {
    hide Orders.NameLess, Orders.NamePrecedes, Orders.Rank;
    if s != {} {
      var r := Listing(s);
      var k := r[0];
      assert Orders.Least(s, Orders.PairLess, k) && r[1..] == Listing(s - {k});
      ListingSorted(s - {k});
      forall i, j | 0 <= i < j < |r|
        ensures Orders.NamePrecedes(r[i].name, r[j].name)
             || (r[i].name == r[j].name && Orders.Rank(r[i].kind) < Orders.Rank(r[j].kind))
      {
        if i == 0 {
          assert r[j] in s && r[j] != k;
          Orders.NameLessIs(k.name, r[j].name);
        } else {
          assert r[1..][i - 1] == r[i] && r[1..][j - 1] == r[j];
        }
      }
    }
  }

  function CallOf(p: Process): Call {
    match p.pc
    case SumTotal => Allreduce(SumOp, 1, DoubleType)
    case MaxRuntime => Allreduce(MaxOp, 1, DoubleType)
    case SumAvg => Allreduce(SumOp, 1, DoubleType)
    case SumKokkos => Allreduce(SumOp, 1, DoubleType)
    case BcastCount => Bcast(p.root, 1, IntType)
    case BcastLength => Bcast(p.root, 1, IntType)
    case BcastName => Bcast(p.root, p.nameLen, CharType)
    case BcastKind => Bcast(p.root, 1, IntType)
    case NextRoot => Allreduce(MinOp, 1, IntType)
    case Done => NoCall
  }

  function KindOf(i: int): StackKind {
    if i == 0 then For else if i == 1 then Reduce else if i == 2 then Scan else if i == 3 then Region else Copy
  }

  function NextKey(p: Process): Key {
    if p.toSend == [] then ROOT_KEY else p.toSend[0]
  }

  function Contribution(p: Process): Value {
    match p.pc
    case SumTotal => Number(At(p.tree, p.node).totalRuntime)
    case MaxRuntime => Number(At(p.tree, p.node).maxRuntime)
    case SumAvg => Ratio(At(p.tree, p.node).avgRuntime)
    case SumKokkos => Number(At(p.tree, p.node).totalKokkosRuntime)
    case BcastCount => Number(|p.pending|)
    case BcastLength => Number(|NextKey(p).name|)
    case BcastName => Text(NextKey(p).name)
    case BcastKind => Number(Orders.Rank(NextKey(p).kind))
    case NextRoot => Number(if p.pending == {} then p.size else p.rank)
    case Done => Number(0)
  }

  /** The top of the outer loop: stop, or take the next node off the queue. */
  function StartNode(p: Process): Process {
    if p.queue == [] then p.(pc := Done) else
      var node := p.queue[0];
      var d := At(p.tree, node);
      p.(pc := SumTotal, queue := p.queue[1..], node := node,
         tree := p.tree[node :=
           d.(commSize := p.size, maxRuntime := d.totalRuntime, avgRuntime := d.totalRuntime as real)])
  }

  function SetNode(p: Process, d: Data, pc: Pc): Process {
    p.(tree := p.tree[p.node := d], pc := pc)
  }

  /** Between children of a round, and at its end. */
  function NextChild(p: Process): Process {
    if p.left > 0 then p.(pc := BcastLength)
    else p.(pc := NextRoot, pending := if p.rank == p.root then {} else p.pending)
  }

  /** One rank goes on from its collective with the result `v`. */
  ghost function Resume(p: Process, v: Value): Process {
    var d := At(p.tree, p.node);
    match p.pc
    case SumTotal => SetNode(p, d.(totalRuntime := IntOf(v)), MaxRuntime)
    case MaxRuntime => SetNode(p, d.(maxRuntime := IntOf(v)), SumAvg)
    case SumAvg => SetNode(p, d.(avgRuntime := if p.size == 0 then 0.0 else RealOf(v) / p.size as real), SumKokkos)
    case SumKokkos =>
      var q := SetNode(p, d.(totalKokkosRuntime := IntOf(v)), BcastCount);
      q.(pending := ChildKeys(q.tree, q.node), root := 0)
    case BcastCount =>
      if p.rank == p.root then
        NextChild(p.(toSend := Listing(p.pending), left := |Listing(p.pending)|))
      else NextChild(p.(left := if IntOf(v) < 0 then 0 else IntOf(v)))
    case BcastLength =>
      p.(pc := BcastName,
         nameLen := if p.rank == p.root then |NextKey(p).name| else if IntOf(v) < 0 then 0 else IntOf(v))
    case BcastName =>
      p.(pc := BcastKind, name := if p.rank == p.root then NextKey(p).name else TextOf(v))
    case BcastKind =>
      var key := if p.rank == p.root then NextKey(p) else Key(KindOf(IntOf(v)), p.name);
      var q := p.(tree := EnsureChild(p.tree, p.node, key), queue := p.queue + [p.node + [key]],
                  left := if p.left > 0 then p.left - 1 else 0);
      NextChild(if p.rank == p.root then q.(toSend := if q.toSend == [] then [] else q.toSend[1..])
                else q.(pending := q.pending - {key}))
    case NextRoot =>
      var next := if IntOf(v) < 0 then 0 else IntOf(v);
      if next < p.size then p.(root := next, pc := BcastCount) else StartNode(p.(root := next))
    case Done => p
  }

  type World = seq<Process>

  /** Every rank issues the same collective with the same arguments. */
  predicate Matched(w: World) {
    && w != [] && CallOf(w[0]) != NoCall
    && (CallOf(w[0]).Bcast? ==> CallOf(w[0]).root < |w|)
    && forall r :: 0 <= r < |w| ==> CallOf(w[r]) == CallOf(w[0])
  }

  function Contributions(w: World): seq<Value> {
    seq(|w|, r requires 0 <= r < |w| => Contribution(w[r]))
  }

  /** A matched collective completes on all ranks; an unmatched one never does. */
  ghost function Next(w: World): World {
    if Matched(w) then
      var v := Outcome(CallOf(w[0]), Contributions(w));
      seq(|w|, r requires 0 <= r < |w| => Resume(w[r], v))
    else w
  }

  ghost function After(w: World, steps: nat): World
    decreases steps
  {
    if steps == 0 then w else After(Next(w), steps - 1)
  }

  function Start(trees: seq<Tree>): World {
    seq(|trees|, r requires 0 <= r < |trees| => StartNode(Starting(r, |trees|, trees[r])))
  }

  predicate AllDone(w: World) {
    forall r :: 0 <= r < |w| ==> w[r].pc == Done
  }

  // ---- What the reduction is to compute ----

  /** The initial values of one field at a path, rank by rank; a missing node counts as a new one. */
  ghost function Totals(trees: seq<Tree>, p: Path): seq<int> {
    seq(|trees|, r requires 0 <= r < |trees| => At(trees[r], p).totalRuntime)
  }

  ghost function Kokkos(trees: seq<Tree>, p: Path): seq<int> {
    seq(|trees|, r requires 0 <= r < |trees| => At(trees[r], p).totalKokkosRuntime)
  }

  ghost function Union(trees: seq<Tree>): set<Path> {
    set r, p | 0 <= r < |trees| && p in trees[r] :: p
  }

  ghost function Reduced(trees: seq<Tree>, r: nat, p: Path): Data
    requires r < |trees|
  {
    At(trees[r], p).(
      commSize := |trees|,
      totalRuntime := SumInts(Totals(trees, p)),
      maxRuntime := MaxInts(Totals(trees, p)),
      avgRuntime := SumInts(Totals(trees, p)) as real / |trees| as real,
      totalKokkosRuntime := SumInts(Kokkos(trees, p)))
  }

  /** What rank `r` holds in the end: the union of all trees, with sums and maxima over all ranks,
      and its own call counts. */
  ghost function ReducedTree(trees: seq<Tree>, r: nat): Tree
    requires r < |trees|
  {
    map p | p in Union(trees) :: Reduced(trees, r, p)
  }

  // ---- Without MPI ----

  /** Without MPI, the nodes in `done` have their own time as largest and average time. */
  ghost function ReducedAlone(t: Tree, done: set<Path>): Tree {
    map p | p in t ::
      if p in done then t[p].(maxRuntime := t[p].totalRuntime, avgRuntime := t[p].totalRuntime as real) else t[p]
  }

  lemma AloneStart(t: Tree)
    ensures ReducedAlone(t, {}) == t
  {
  }

  lemma AloneStep(t: Tree, done: set<Path>, p: Path)
    requires p in t && p !in done
    ensures p in ReducedAlone(t, done) && ReducedAlone(t, done)[p] == t[p]
    ensures ReducedAlone(t, done + {p})
         == ReducedAlone(t, done)[p := t[p].(maxRuntime := t[p].totalRuntime, avgRuntime := t[p].totalRuntime as real)]
  {
  }

  // ---- One rank and what the library delivers to it ----

  function Starting(rank: nat, size: nat, t: Tree): Process {
    Process(rank, size, Done, t, [[]], [], {}, 0, [], 0, 0, "")
  }

  /** One rank after `steps` collectives, the first of which delivers `results(from)`. */
  ghost function Follow(p: Process, results: nat -> Value, from: nat, steps: nat): Process {
    if steps == 0 then p else Resume(Follow(p, results, from, steps - 1), results(from + steps - 1))
  }

  /** A collective as it was issued. What a rank passes to a broadcast it only receives does not matter. */
  datatype Issue = Issue(call: Call, value: Value)

  function IssueOf(p: Process): Issue {
    Issue(CallOf(p), if CallOf(p).Bcast? && p.rank != p.root then Number(0) else Contribution(p))
  }

  ghost function Issues(p: Process, results: nat -> Value, from: nat, steps: nat): seq<Issue> {
    if steps == 0 then []
    else Issues(p, results, from, steps - 1) + [IssueOf(Follow(p, results, from, steps - 1))]
  }

  lemma {:induction false} FollowOn(p: Process, results: nat -> Value, from: nat, m: nat, n: nat)
    ensures Follow(Follow(p, results, from, m), results, from + m, n) == Follow(p, results, from, m + n)
    ensures Issues(p, results, from, m) + Issues(Follow(p, results, from, m), results, from + m, n)
      == Issues(p, results, from, m + n)
    decreases n
  {
    hide Resume, IssueOf;
    if n > 0 {
      FollowOn(p, results, from, m, n - 1);
    }
  }

  lemma {:induction false} IssueCount(p: Process, results: nat -> Value, from: nat, n: nat)
    ensures |Issues(p, results, from, n)| == n
  {
    hide Resume, IssueOf;
    if n > 0 {
      IssueCount(p, results, from, n - 1);
    }
  }

  /** The reduction is over after exactly `steps` collectives. */
  ghost predicate EndsAfter(p: Process, results: nat -> Value, from: nat, steps: nat) {
    && Follow(p, results, from, steps).pc.Done?
    && forall i :: 0 <= i < steps ==> !Follow(p, results, from, i).pc.Done?
  }

  lemma DoneIsDone(p: Process, v: Value)
    requires p.pc.Done?
    ensures Resume(p, v) == p
  {
  }

  lemma {:induction false} StaysDone(p: Process, results: nat -> Value, from: nat, m: nat, n: nat)
    requires m <= n && Follow(p, results, from, m).pc.Done?
    ensures Follow(p, results, from, n) == Follow(p, results, from, m)
    decreases n
  {
    hide Resume;
    if m < n {
      StaysDone(p, results, from, m, n - 1);
      DoneIsDone(Follow(p, results, from, m), results(from + n - 1));
    }
  }
}
