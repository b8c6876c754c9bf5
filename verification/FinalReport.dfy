/** What the reduction keeps, and what the two printed trees therefore show. */
module FinalReport {
  import opened Sums
  import opened CallTree
  import opened Nesting
  import opened Inversion
  import opened BottomUp
  import opened Mpi
  import opened Reduction
  import Agreement
  import opened Printing

  ghost function PerRank(f: Field, trees: seq<Tree>, s: set<Path>): seq<int> {
    seq(|trees|, r requires 0 <= r < |trees| => Sum(s, Read(f, trees[r])))
  }

  ghost function AtRanks(f: Field, trees: seq<Tree>, p: Path): seq<int> {
    seq(|trees|, r requires 0 <= r < |trees| => Read(f, trees[r])(p))
  }

  lemma {:induction false} SumIntsAdd(a: seq<int>, b: seq<int>, c: seq<int>)
    requires |a| == |b| == |c| && forall i :: 0 <= i < |a| ==> c[i] == a[i] + b[i]
    ensures SumInts(c) == SumInts(a) + SumInts(b)
  {
    if a != [] {
      SumIntsAdd(a[..|a| - 1], b[..|b| - 1], c[..|c| - 1]);
    }
  }

  lemma {:induction false} SumIntsMonotone(a: seq<int>, b: seq<int>)
    requires |a| == |b| && forall i :: 0 <= i < |a| ==> a[i] <= b[i]
    ensures SumInts(a) <= SumInts(b)
  {
    if a != [] {
      SumIntsMonotone(a[..|a| - 1], b[..|b| - 1]);
    }
  }

  lemma {:induction false} SumIntsConstant(a: seq<int>, c: int)
    requires forall i :: 0 <= i < |a| ==> a[i] == c
    ensures SumInts(a) == |a| * c
  {
    if a != [] {
      SumIntsConstant(a[..|a| - 1], c);
    }
  }

  lemma MaxIntsMonotone(a: seq<int>, b: seq<int>)
    requires a != [] && |a| == |b| && forall i :: 0 <= i < |a| ==> a[i] <= b[i]
    ensures MaxInts(a) <= MaxInts(b)
  {
    var i :| 0 <= i < |a| && a[i] == MaxInts(a);
    assert b[i] <= MaxInts(b);
  }

  lemma AtRead(f: Field, t: Tree, p: Path)
    ensures Read(f, t)(p) == if f.Total? then At(t, p).totalRuntime else At(t, p).totalKokkosRuntime
  {
  }

  /** The reduced field at a path is the sum over ranks, a missing node counting zero. */
  lemma ReducedRead(f: Field, trees: seq<Tree>, r: nat, p: Path)
    requires r < |trees| && p in Union(trees)
    ensures Read(f, ReducedTree(trees, r))(p) == SumInts(AtRanks(f, trees, p))
  {
    forall i | 0 <= i < |trees|
      ensures AtRanks(f, trees, p)[i]
        == if f.Total? then At(trees[i], p).totalRuntime else At(trees[i], p).totalKokkosRuntime
    {
      AtRead(f, trees[i], p);
    }
    if f.Total? {
      assert Totals(trees, p) == AtRanks(f, trees, p);
    } else {
      assert Kokkos(trees, p) == AtRanks(f, trees, p);
    }
  }

  /** The columns of a reduced node: total and Kokkos time are sums over ranks, the largest time is one rank's and no
      rank's is larger, the average times the number of ranks is the total, and the call counts are the rank's own. */
  lemma ReducedColumns(trees: seq<Tree>, r: nat, p: Path)
    requires r < |trees| && p in ReducedTree(trees, r)
    ensures var d, own := ReducedTree(trees, r)[p], AtRanks(Total, trees, p);
      && d.totalRuntime == SumInts(own) && d.totalKokkosRuntime == SumInts(AtRanks(KokkosTotal, trees, p))
      && d.maxRuntime in own && (forall i :: 0 <= i < |trees| ==> own[i] <= d.maxRuntime)
      && IsAverage(d.avgRuntime, d.totalRuntime, |trees|) && d.commSize == |trees|
    ensures var d := ReducedTree(trees, r)[p];
      && d.numberOfCalls == (if p in trees[r] then trees[r][p].numberOfCalls else 0)
      && d.totalNumberOfKernelCalls == (if p in trees[r] then trees[r][p].totalNumberOfKernelCalls else 0)
  {
    ReducedRead(Total, trees, r, p);
    ReducedRead(KokkosTotal, trees, r, p);
    TotalsRead(trees, p);
    ReducedFields(trees, r, p);
    ReducedAverage(trees, r, p);
    hide Read, AtRanks, Totals, Reduced, IsAverage;
  }

  ghost predicate IsAverage(average: real, total: int, n: nat) {
    average * n as real == total as real
  }

  lemma ReducedAverage(trees: seq<Tree>, r: nat, p: Path)
    requires r < |trees| && p in ReducedTree(trees, r)
    ensures var d := ReducedTree(trees, r)[p]; IsAverage(d.avgRuntime, d.totalRuntime, |trees|)
  {
    ReducedFields(trees, r, p);
    hide *;
    Averaged(ReducedTree(trees, r)[p].avgRuntime, ReducedTree(trees, r)[p].totalRuntime, |trees|);
  }

  lemma ReducedFields(trees: seq<Tree>, r: nat, p: Path)
    requires r < |trees| && p in ReducedTree(trees, r)
    ensures var d := ReducedTree(trees, r)[p];
      && d.maxRuntime == MaxInts(Totals(trees, p)) && d.commSize == |trees|
      && d.totalRuntime == SumInts(Totals(trees, p))
      && d.avgRuntime == d.totalRuntime as real / |trees| as real
      && d.numberOfCalls == (if p in trees[r] then trees[r][p].numberOfCalls else 0)
      && d.totalNumberOfKernelCalls == (if p in trees[r] then trees[r][p].totalNumberOfKernelCalls else 0)
  {
  }

  lemma TotalsRead(trees: seq<Tree>, p: Path)
    ensures Totals(trees, p) == AtRanks(Total, trees, p)
  {
    forall i | 0 <= i < |trees| ensures AtRanks(Total, trees, p)[i] == Totals(trees, p)[i] {
      AtRead(Total, trees[i], p);
    }
  }

  lemma Averaged(average: real, total: int, n: nat)
    requires n > 0 && average == total as real / n as real
    ensures IsAverage(average, total, n)
  {
  }

  /** Summing over nodes and over ranks may be exchanged. */
  lemma {:induction false} SumOverRanks(f: Field, trees: seq<Tree>, r: nat, s: set<Path>)
    requires r < |trees| && s <= Union(trees)
    ensures Sum(s, Read(f, ReducedTree(trees, r))) == SumInts(PerRank(f, trees, s))
    decreases |s|
  {
    hide Read, ReducedTree, Union;
    if s == {} {
      SumIntsConstant(PerRank(f, trees, s), 0);
    } else {
      var p :| p in s;
      SumPick(s, Read(f, ReducedTree(trees, r)), p);
      ReducedRead(f, trees, r, p);
      SumOverRanks(f, trees, r, s - {p});
      forall i | 0 <= i < |trees|
        ensures PerRank(f, trees, s)[i] == AtRanks(f, trees, p)[i] + PerRank(f, trees, s - {p})[i]
      {
        SumPick(s, Read(f, trees[i]), p);
      }
      SumIntsAdd(AtRanks(f, trees, p), PerRank(f, trees, s - {p}), PerRank(f, trees, s));
    }
  }

  lemma ReducedWellFormed(trees: seq<Tree>, r: nat)
    requires r < |trees| && Agreement.Ready(trees)
    ensures WellFormed(ReducedTree(trees, r))
  {
    assert [] in trees[0];
    forall p {:trigger Parent(p)} | p in Union(trees) && p != [] ensures Parent(p) in Union(trees) {
      var i :| 0 <= i < |trees| && p in trees[i];
      assert Parent(p) in trees[i];
    }
  }

  /** A rank's share of the sum over children, whether or not it has the parent at all. */
  lemma RankChildren(f: Field, t: Tree, kids: set<Path>, p: Path)
    requires NestedBy(f, t)
    requires Children(t, p) <= kids && forall c :: c in kids ==> c != [] && Parent(c) == p
    ensures Sum(kids, Read(f, t)) <= Read(f, t)(p)
  {
    var extra := kids - Children(t, p);
    SumUnion(Children(t, p), extra, Read(f, t));
    assert Children(t, p) + extra == kids;
    SumZero(extra, Read(f, t));
    if p !in t {
      assert Children(t, p) == {};
    }
  }

  /** The reduction keeps the bound: on every rank the reduced children sum to no more than their parent. */
  lemma ReducedNested(f: Field, trees: seq<Tree>, r: nat)
    requires r < |trees| && forall i :: 0 <= i < |trees| ==> NestedBy(f, trees[i])
    ensures NestedBy(f, ReducedTree(trees, r))
  {
    var t := ReducedTree(trees, r);
    ReducedWellFormed(trees, r);
    forall p | p in t ensures 0 <= Read(f, t)(p) && Sum(Children(t, p), Read(f, t)) <= Read(f, t)(p) {
      ReducedNestedAt(f, trees, r, p);
    }
  }

  lemma ReducedNestedAt(f: Field, trees: seq<Tree>, r: nat, p: Path)
    requires r < |trees| && forall i :: 0 <= i < |trees| ==> NestedBy(f, trees[i])
    requires p in ReducedTree(trees, r)
    ensures var t := ReducedTree(trees, r); 0 <= Read(f, t)(p) && Sum(Children(t, p), Read(f, t)) <= Read(f, t)(p)
  {
    hide NestedBy, Read;
    var t := ReducedTree(trees, r);
    var kids := Children(t, p);
    SumOverRanks(f, trees, r, kids);
    ReducedRead(f, trees, r, p);
    forall i | 0 <= i < |trees|
      ensures PerRank(f, trees, kids)[i] <= AtRanks(f, trees, p)[i] && 0 <= AtRanks(f, trees, p)[i]
    {
      assert Children(trees[i], p) <= kids;
      RankChildren(f, trees[i], kids, p);
      NotNegative(f, trees[i], p);
    }
    SumIntsMonotone(PerRank(f, trees, kids), AtRanks(f, trees, p));
    SumIntsNonNegative(AtRanks(f, trees, p));
  }

  lemma NotNegative(f: Field, t: Tree, p: Path)
    requires NestedBy(f, t)
    ensures 0 <= Read(f, t)(p)
  {
  }

  lemma {:induction false} SumIntsNonNegative(a: seq<int>)
    requires forall i :: 0 <= i < |a| ==> 0 <= a[i]
    ensures 0 <= SumInts(a)
  {
    if a != [] {
      SumIntsNonNegative(a[..|a| - 1]);
    }
  }

  lemma ChildWithin(f: Field, t: Tree, c: Path)
    requires NestedBy(f, t) && c != []
    ensures Read(f, t)(c) <= Read(f, t)(Parent(c))
  {
    if c in t {
      assert Parent(c) in t;
      SumNonNegative(Children(t, Parent(c)), Read(f, t));
      assert c in Children(t, Parent(c));
    } else if Parent(c) in t {
      assert 0 <= Read(f, t)(Parent(c));
    }
  }

  lemma ReducedMaxAt(trees: seq<Tree>, r: nat, c: Path)
    requires r < |trees| && c != [] && forall i :: 0 <= i < |trees| ==> NestedBy(Total, trees[i])
    ensures Reduced(trees, r, c).maxRuntime <= Reduced(trees, r, Parent(c)).maxRuntime
  {
    hide NestedBy;
    forall i | 0 <= i < |trees| ensures Totals(trees, c)[i] <= Totals(trees, Parent(c))[i] {
      ChildWithin(Total, trees[i], c);
      AtRead(Total, trees[i], c);
      AtRead(Total, trees[i], Parent(c));
    }
    MaxIntsMonotone(Totals(trees, c), Totals(trees, Parent(c)));
  }

  /** The largest time over ranks never grows downward, so the report's cuts are sound. */
  lemma ReducedMaxFalls(trees: seq<Tree>, r: nat)
    requires r < |trees| && forall i :: 0 <= i < |trees| ==> NestedBy(Total, trees[i])
    ensures MaxFalls(ReducedTree(trees, r))
  {
    hide NestedBy;
    var t := ReducedTree(trees, r);
    forall c {:trigger Parent(c)} | c in t && c != [] && Parent(c) in t
      ensures t[c].maxRuntime <= t[Parent(c)].maxRuntime && t[c].commSize == t[Parent(c)].commSize
    {
      ReducedMaxAt(trees, r, c);
    }
  }

  // ---- The bottom-up tree ----

  /** The bottom-up trees the ranks make from the same reduced totals differ only in call counts. */
  ghost function BottomUps(trees: seq<Tree>): seq<Tree> {
    seq(|trees|, r requires 0 <= r < |trees| => Inverted(ReducedTree(trees, r)))
  }

  lemma SameKeysSameTotals(t: Tree, u: Tree, p: Path)
    requires t.Keys == u.Keys && forall q :: q in t ==> t[q].totalRuntime == u[q].totalRuntime
    ensures TotalAt(t)(p) == TotalAt(u)(p) && SelfTime(t)(p) == SelfTime(u)(p)
  {
    assert Children(t, p) == Children(u, p);
    SumCongruent(Children(t, p), TotalAt(t), TotalAt(u));
  }

  lemma SameBottomUp(trees: seq<Tree>, r: nat, r': nat)
    requires r < |trees| && r' < |trees|
    ensures BottomUps(trees)[r].Keys == BottomUps(trees)[r'].Keys
    ensures forall p :: p in BottomUps(trees)[r] ==>
      BottomUps(trees)[r][p].totalRuntime == BottomUps(trees)[r'][p].totalRuntime
  {
    var t, u := ReducedTree(trees, r), ReducedTree(trees, r');
    assert t.Keys == u.Keys;
    forall p | p in Inverted(t) ensures Inverted(t)[p].totalRuntime == Inverted(u)[p].totalRuntime {
      forall q | q in Under(t.Keys, p) ensures SelfTime(t)(q) == SelfTime(u)(q) {
        SameKeysSameTotals(t, u, q);
      }
      SumCongruent(Under(t.Keys, p), SelfTime(t), SelfTime(u));
    }
  }

  lemma BottomUpsReady(trees: seq<Tree>)
    requires trees != []
    ensures Agreement.Ready(BottomUps(trees))
    ensures forall i :: 0 <= i < |trees| ==>
      NestedBy(Total, BottomUps(trees)[i]) && NestedBy(KokkosTotal, BottomUps(trees)[i])
  {
    forall i | 0 <= i < |trees|
      ensures NestedBy(Total, BottomUps(trees)[i]) && NestedBy(KokkosTotal, BottomUps(trees)[i])
    {
      InvertedNested(ReducedTree(trees, i));
      NestedBoth(BottomUps(trees)[i]);
    }
  }

  /** The bottom-up tree is made from totals already reduced, and is reduced again:
      every bottom-up total is `|trees|` times what one rank computed, and the printed average over ranks
      is that rank's total itself, not an average of it. */
  lemma BottomUpTotals(trees: seq<Tree>, r: nat, p: Path)
    requires r < |trees| && p in BottomUps(trees)[r]
    ensures p in ReducedTree(BottomUps(trees), r)
    ensures ReducedTree(BottomUps(trees), r)[p].totalRuntime == |trees| * BottomUps(trees)[r][p].totalRuntime
    ensures ReducedTree(BottomUps(trees), r)[p].avgRuntime == BottomUps(trees)[r][p].totalRuntime as real
  {
    var b := BottomUps(trees);
    forall i | 0 <= i < |trees| ensures Totals(b, p)[i] == b[r][p].totalRuntime {
      SameBottomUp(trees, r, i);
    }
    SumIntsConstant(Totals(b, p), b[r][p].totalRuntime);
    Quotient(|trees|, b[r][p].totalRuntime);
    assert p in Union(b);
  }

  lemma Quotient(n: int, x: int)
    requires n > 0
    ensures (n * x) as real / n as real == x as real
  {
    assert (n * x) as real == n as real * x as real;
  }

  /** The bottom-up report's grand total is `|trees|` times the top-down one, on every rank. */
  lemma BottomUpRoot(trees: seq<Tree>, r: nat)
    requires r < |trees| && forall i :: 0 <= i < |trees| ==> NestedBy(Total, trees[i])
    ensures [] in ReducedTree(trees, r) && [] in ReducedTree(BottomUps(trees), r)
    ensures ReducedTree(BottomUps(trees), r)[[]].totalRuntime == |trees| * ReducedTree(trees, r)[[]].totalRuntime
  {
    var t := ReducedTree(trees, r);
    ReducedNested(Total, trees, r);
    forall p | p in t ensures ChildrenFit(Total, t, p) { NestedFits(Total, t, p); }
    RootConserved(Total, t);
    InvertedDomain(t, []);
    BottomUpTotals(trees, r, []);
  }

  /** Percentages survive the double reduction: a bottom-up node's share of the bottom-up total is its
      time's share of the top-down total. */
  lemma BottomUpPercent(trees: seq<Tree>, r: nat, p: Path)
    requires r < |trees| && forall i :: 0 <= i < |trees| ==> NestedBy(Total, trees[i])
    requires p in BottomUps(trees)[r] && [] in ReducedTree(trees, r) && ReducedTree(trees, r)[[]].totalRuntime > 0
    ensures var b := ReducedTree(BottomUps(trees), r);
      [] in b && p in b && b[[]].totalRuntime > 0 &&
      b[p].totalRuntime as real / b[[]].totalRuntime as real
        == BottomUps(trees)[r][p].totalRuntime as real / ReducedTree(trees, r)[[]].totalRuntime as real
  {
    hide ReducedTree, NestedBy, Inverted;
    BottomUpRoot(trees, r);
    BottomUpTotals(trees, r, p);
    ScaledQuotient(|trees|, BottomUps(trees)[r][p].totalRuntime, ReducedTree(trees, r)[[]].totalRuntime);
  }

  lemma ScaledQuotient(n: int, a: int, b: int)
    requires n > 0 && b > 0
    ensures n * b > 0 && (n * a) as real / (n * b) as real == a as real / b as real
  {
    assert (n * a) as real == n as real * a as real;
    assert (n * b) as real == n as real * b as real;
    Cancel(n as real, a as real, b as real);
  }

  lemma Cancel(n: real, a: real, b: real)
    requires n > 0.0 && b > 0.0
    ensures n * b > 0.0 && (n * a) / (n * b) == a / b
  {
    var q := a / b;
    assert q * b == a;
    assert n * a == q * (n * b);
  }

  /** A region's printed remainder, for a node that took any time at all, lies between 0 and 100 percent. */
  lemma RemainderInRange(t: Tree, p: Path)
    requires NestedTotals(t) && p in t && t[p].totalRuntime > 0
    ensures 0.0 <= (1.0 - Sum(Children(t, p), TotalAt(t)) as real / t[p].totalRuntime as real) * 100.0 <= 100.0
  {
    SumNonNegative(Children(t, p), TotalAt(t));
    Fraction(Sum(Children(t, p), TotalAt(t)), t[p].totalRuntime);
  }

  lemma Fraction(a: int, b: int)
    requires 0 <= a <= b && 0 < b
    ensures 0.0 <= a as real / b as real <= 1.0
  {
  }
}
