/** What the bottom-up tree says about the tree it was made from. */
module BottomUp {
  import opened Sums
  import opened CallTree
  import opened Nesting
  import opened Inversion

  lemma {:induction false} CallersInjective(a: Path, b: Path)
    requires Callers(a) == Callers(b)
    ensures a == b
    decreases |a|
  {
    assert |a| == |b|;
    if a != [] {
      assert Callers(a)[0] == Last(a) && Callers(b)[0] == Last(b);
      assert Callers(a)[1..] == Callers(Parent(a)) && Callers(b)[1..] == Callers(Parent(b));
      CallersInjective(Parent(a), Parent(b));
      assert a == Parent(a) + [Last(a)] && b == Parent(b) + [Last(b)];
    }
  }

  lemma InvertedDomain(t: Tree, p: Path)
    ensures p in Inverted(t) <==> p == [] || exists q :: q in t && p <= Callers(q)
  {
    InWalks(t.Keys, p);
    if q :| q in t && p <= Callers(q) { assert q in Under(t.Keys, p); }
    if q :| q in Under(t.Keys, p) { assert q in t && p <= Callers(q); }
  }

  /** Every column is a sum over the nodes whose walk begins that way. */
  lemma InvertedAt(t: Tree, p: Path)
    requires p in Inverted(t)
    ensures var i, under := Inverted(t)[p], Under(t.Keys, p);
      && i.totalRuntime == Sum(under, SelfTime(t))
      && i.totalKokkosRuntime == Sum(under, SelfKokkos(t))
      && i.numberOfCalls == Sum(under, CallsAt(t))
  {
    var under := Under(t.Keys, p);
    var w := WeightsOf(t);
    assert Inverted(t)[p] == Aggregate(w, under);
    assert w.time == SelfTime(t) && w.kokkos == SelfKokkos(t) && w.calls == CallsAt(t);
    hide *;
  }

  lemma InvertedWellFormed(t: Tree)
    ensures WellFormed(Inverted(t))
  {
    forall p {:trigger Parent(p)} | p in Inverted(t) && p != [] ensures Parent(p) in Inverted(t) {
      InvertedDomain(t, p);
      var q :| q in t && p <= Callers(q);
      assert Parent(p) <= Callers(q);
      InvertedDomain(t, Parent(p));
    }
  }

  lemma CallersHead(q: Path)
    ensures Callers(q)[0] == KeyOf(q)
  {
    if q == [] {
    } else {
      assert Callers(q) == [Last(q)] + Callers(Parent(q));
    }
  }

  /** The first-level entry of a kernel or region holds its exclusive time over all contexts. */
  lemma FirstLevel(t: Tree, k: Key)
    ensures [k] in Inverted(t) <==> exists q :: q in t && KeyOf(q) == k
    ensures [k] in Inverted(t) ==>
      var everywhere := set q | q in t && KeyOf(q) == k;
      && Inverted(t)[[k]].totalRuntime == Sum(everywhere, SelfTime(t))
      && Inverted(t)[[k]].totalKokkosRuntime == Sum(everywhere, SelfKokkos(t))
      && Inverted(t)[[k]].numberOfCalls == Sum(everywhere, CallsAt(t))
  {
    forall q ensures [k] <= Callers(q) <==> KeyOf(q) == k { CallersHead(q); }
    InvertedDomain(t, [k]);
    assert Under(t.Keys, [k]) == set q | q in t && KeyOf(q) == k;
  }

  // ---- Nothing is lost ----

  /** The next step of a walk that goes on past `p`. */
  ghost function NextStep(p: Path): Path -> Path {
    q => if |p| < |Callers(q)| then Callers(q)[..|p| + 1] else Callers(q)
  }

  /** The nodes whose whole walk is `p`: at most one. */
  ghost function Exactly(t: Tree, p: Path): set<Path> {
    set q | q in t && Callers(q) == p
  }

  /** Everything filed under `p` is filed under one of its children or ends at `p`. */
  lemma UnderSplits(t: Tree, p: Path, f: Path -> int, g: Path -> int)
    requires p in Inverted(t)
    requires forall c :: c in Inverted(t) ==> g(c) == Sum(Under(t.Keys, c), f)
    ensures g(p) == Sum(Exactly(t, p), f) + Sum(Children(Inverted(t), p), g)
  {
    var exact, rest := Exactly(t, p), Under(t.Keys, p) - Exactly(t, p);
    assert Sum(Under(t.Keys, p), f) == Sum(exact, f) + Sum(rest, f) by {
      SumUnion(exact, rest, f);
      assert exact + rest == Under(t.Keys, p);
    }
    RestByChildren(t, p, f, g);
  }

  lemma RestByChildren(t: Tree, p: Path, f: Path -> int, g: Path -> int)
    requires p in Inverted(t)
    requires forall c :: c in Inverted(t) ==> g(c) == Sum(Under(t.Keys, c), f)
    ensures Sum(Under(t.Keys, p) - Exactly(t, p), f) == Sum(Children(Inverted(t), p), g)
  {
    var rest, kids, key := Under(t.Keys, p) - Exactly(t, p), Children(Inverted(t), p), NextStep(p);
    forall q | q in rest ensures key(q) in kids { StepInKids(t, p, q); }
    SumFibres(rest, f, key, kids);
    forall c | c in kids ensures FibreSum(rest, f, key)(c) == g(c) { NextFibre(t, p, c); }
    SumCongruent(kids, FibreSum(rest, f, key), g);
  }

  lemma StepInKids(t: Tree, p: Path, q: Path)
    requires q in Under(t.Keys, p) - Exactly(t, p)
    ensures NextStep(p)(q) in Children(Inverted(t), p)
  {
    InvertedDomain(t, NextStep(p)(q));
  }

  lemma NextFibre(t: Tree, p: Path, c: Path)
    requires c in Children(Inverted(t), p)
    ensures Fibre(Under(t.Keys, p) - Exactly(t, p), NextStep(p), c) == Under(t.Keys, c)
  {
    assert c != [] && Parent(c) == p;
    hide Inverted;
    forall q | q in t ensures (p <= Callers(q) && Callers(q) != p && NextStep(p)(q) == c) <==> c <= Callers(q) {
      OneStepOn(p, c, Callers(q));
    }
  }

  lemma OneStepOn(p: Path, c: Path, walk: Path)
    requires c != [] && Parent(c) == p
    ensures p <= walk && walk != p && walk[..|p| + 1] == c <==> c <= walk
  {
    if c <= walk { assert walk[..|p| + 1] == c; }
  }

  lemma ExactlyOne(t: Tree, q: Path)
    requires q in t
    ensures Exactly(t, Callers(q)) == {q}
  {
    forall r | r in t && Callers(r) == Callers(q) ensures r == q { CallersInjective(r, q); }
  }

  /** What is filed at `p` itself: the value of the one node whose whole walk `p` is, or nothing. */
  lemma EndsHere(t: Tree, p: Path, f: Path -> int)
    ensures forall q :: q in t && Callers(q) == p ==> Sum(Exactly(t, p), f) == f(q)
    ensures (forall q :: q in t ==> Callers(q) != p) ==> Sum(Exactly(t, p), f) == 0
  {
    forall q | q in t && Callers(q) == p ensures Sum(Exactly(t, p), f) == f(q) {
      ExactlyOne(t, q);
      SumPick({q}, f, q);
    }
  }

  /** In either column, a bottom-up node's time minus its children's is the own time of the one node whose whole
      walk it is, or zero if there is none. */
  lemma NothingLost(t: Tree, p: Path)
    requires p in Inverted(t)
    ensures var time := Inverted(t)[p].totalRuntime - Sum(Children(Inverted(t), p), TotalAt(Inverted(t)));
      && (forall q :: q in t && Callers(q) == p ==> time == SelfTime(t)(q))
      && ((forall q :: q in t ==> Callers(q) != p) ==> time == 0)
      && time == Sum(Exactly(t, p), SelfTime(t))
    ensures var time := Inverted(t)[p].totalKokkosRuntime - Sum(Children(Inverted(t), p), KokkosAt(Inverted(t)));
      && (forall q :: q in t && Callers(q) == p ==> time == SelfKokkos(t)(q))
      && ((forall q :: q in t ==> Callers(q) != p) ==> time == 0)
      && time == Sum(Exactly(t, p), SelfKokkos(t))
  {
    UnderSplits(t, p, SelfTime(t), TotalAt(Inverted(t)));
    UnderSplits(t, p, SelfKokkos(t), KokkosAt(Inverted(t)));
    hide Callers, Exactly, Children, SelfTime, SelfKokkos;
    EndsHere(t, p, SelfTime(t));
    EndsHere(t, p, SelfKokkos(t));
  }

  lemma InvertedNestedAt(f: Field, t: Tree, p: Path)
    requires p in Inverted(t)
    ensures 0 <= Read(f, Inverted(t))(p)
    ensures Sum(Children(Inverted(t), p), Read(f, Inverted(t))) <= Read(f, Inverted(t))(p)
  {
    var self := if f.Total? then SelfTime(t) else SelfKokkos(t);
    forall c | c in Inverted(t) ensures Read(f, Inverted(t))(c) == Sum(Under(t.Keys, c), self) {
      InvertedAt(t, c);
    }
    forall q ensures 0 <= self(q) {
    }
    hide Inverted, Read, Exactly, Under, SelfTime, SelfKokkos, Children, Sum;
    UnderSplits(t, p, self, Read(f, Inverted(t)));
    SumNonNegative(Exactly(t, p), self);
    SumNonNegative(Under(t.Keys, p), self);
  }

  /** Whatever tree it was made from, the bottom-up tree is nested, in both columns. */
  lemma InvertedNested(t: Tree)
    ensures NestedTotals(Inverted(t)) && NestedBy(KokkosTotal, Inverted(t))
  {
    InvertedWellFormed(t);
    InvertedNestedBy(Total, t);
    InvertedNestedBy(KokkosTotal, t);
    NestedBoth(Inverted(t));
  }

  lemma InvertedNestedBy(f: Field, t: Tree)
    requires WellFormed(Inverted(t))
    ensures NestedBy(f, Inverted(t))
  {
    hide Inverted, Read, WellFormed;
    var i := Inverted(t);
    forall p | p in i ensures 0 <= Read(f, i)(p) && Sum(Children(i, p), Read(f, i)) <= Read(f, i)(p) {
      InvertedNestedAt(f, t, p);
    }
  }

  // ---- Conservation ----

  ghost function Self(f: Field, t: Tree): Path -> int {
    if f.Total? then SelfTime(t) else SelfKokkos(t)
  }

  ghost function ChildTotal(f: Field, t: Tree): Path -> int {
    p => Sum(Children(t, p), Read(f, t))
  }

  /** By how much the children of a node exceed it. */
  ghost function Excess(f: Field, t: Tree): Path -> int {
    p => if ChildTotal(f, t)(p) < Read(f, t)(p) then 0 else ChildTotal(f, t)(p) - Read(f, t)(p)
  }

  ghost function ParentOf(): Path -> Path {
    q => if q == [] then [] else Parent(q)
  }

  /** Every node but the root is the child of one node. */
  lemma AllChildren(f: Field, t: Tree)
    requires WellFormed(t)
    ensures Sum(t.Keys, Read(f, t)) == Read(f, t)([]) + Sum(t.Keys, ChildTotal(f, t))
  {
    hide Read;
    var rest := t.Keys - {[]};
    SumPick(t.Keys, Read(f, t), []);
    forall q | q in rest ensures ParentOf()(q) in t.Keys {
      assert Parent(q) in t;
    }
    SumFibres(rest, Read(f, t), ParentOf(), t.Keys);
    forall p | p in t.Keys ensures FibreSum(rest, Read(f, t), ParentOf())(p) == ChildTotal(f, t)(p) {
      assert Fibre(rest, ParentOf(), p) == Children(t, p);
    }
    SumCongruent(t.Keys, FibreSum(rest, Read(f, t), ParentOf()), ChildTotal(f, t));
  }

  ghost function WithExcess(f: Field, t: Tree): Path -> int {
    p => Read(f, t)(p) + Excess(f, t)(p)
  }

  lemma ClampAt(f: Field, t: Tree, p: Path)
    ensures WithExcess(f, t)(p) == Self(f, t)(p) + ChildTotal(f, t)(p)
  {
  }

  /** In either column, the clamps at zero are the only thing that can change the grand total. */
  lemma RootTotal(f: Field, t: Tree)
    requires WellFormed(t)
    ensures Read(f, Inverted(t))([]) == Read(f, t)([]) + Sum(t.Keys, Excess(f, t))
  {
    AllChildren(f, t);
    assert Under(t.Keys, []) == t.Keys;
    assert Read(f, Inverted(t))([]) == Sum(t.Keys, Self(f, t));
    hide Read, Inverted, Self, Excess, ChildTotal;
    forall p | p in t.Keys ensures WithExcess(f, t)(p) == Self(f, t)(p) + ChildTotal(f, t)(p) { ClampAt(f, t, p); }
    SumAdd(t.Keys, Self(f, t), ChildTotal(f, t), WithExcess(f, t));
    SumAdd(t.Keys, Read(f, t), Excess(f, t), WithExcess(f, t));
  }

  ghost predicate ChildrenFit(f: Field, t: Tree, p: Path) {
    ChildTotal(f, t)(p) <= Read(f, t)(p)
  }

  lemma ExcessAt(f: Field, t: Tree, p: Path)
    ensures 0 <= Excess(f, t)(p)
    ensures Excess(f, t)(p) == 0 <==> ChildrenFit(f, t, p)
  {
  }

  /** In either column, the bottom-up root holds the top-down total exactly when no clamp changed a value. */
  lemma RootConserved(f: Field, t: Tree)
    requires WellFormed(t)
    ensures Read(f, t)([]) <= Read(f, Inverted(t))([])
    ensures Read(f, Inverted(t))([]) == Read(f, t)([]) <==> forall p :: p in t ==> ChildrenFit(f, t, p)
  {
    hide Read, Inverted, Excess, ChildrenFit;
    RootTotal(f, t);
    forall p ensures 0 <= Excess(f, t)(p) && (Excess(f, t)(p) == 0 <==> ChildrenFit(f, t, p)) { ExcessAt(f, t, p); }
    SumNonNegative(t.Keys, Excess(f, t));
    if forall p :: p in t ==> ChildrenFit(f, t, p) {
      SumZero(t.Keys, Excess(f, t));
    }
  }

  lemma NestedFits(f: Field, t: Tree, p: Path)
    requires NestedBy(f, t) && p in t
    ensures ChildrenFit(f, t, p) && Self(f, t)(p) == Read(f, t)(p) - Sum(Children(t, p), Read(f, t))
  {
  }
}
