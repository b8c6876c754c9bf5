/** What `adopt` computes, and what it means on a finished run. */
module Aggregation {
  import opened Sums
  import opened CallTree
  import opened Nesting

  predicate IsKernel(p: Path) {
    KeyOf(p).kind != Region
  }

  /** Kokkos time a node has before its children are added. */
  ghost function OwnKokkos(t: Tree): Path -> int {
    p => if p in t then t[p].totalKokkosRuntime + (if IsKernel(p) then t[p].totalRuntime else 0) else 0
  }

  /** A node after aggregation holds the sums over its whole subtree. */
  ghost function AdoptedAt(t: Tree, p: Path): Data
    requires p in t
  {
    t[p].(totalKokkosRuntime := Sum(Subtree(t, p), OwnKokkos(t)),
          totalNumberOfKernelCalls := Sum(Subtree(t, p), KernelCallsAt(t)))
  }

  /** Aggregation of the subtree at `p`. */
  ghost function AdoptedBelow(t: Tree, p: Path): Tree {
    map q | q in t :: if p <= q then AdoptedAt(t, q) else t[q]
  }

  ghost function Adopted(t: Tree): Tree {
    AdoptedBelow(t, [])
  }

  // ---- The loop over the children of one node ----

  /** Strict descendants of `p` through children whose keys are no longer in `todo`. */
  ghost function Done(t: Tree, p: Path, todo: set<Key>): set<Path> {
    set q | q in t && p <= q && q != p && q[|p|] !in todo
  }

  ghost function AdoptedPartly(t: Tree, p: Path, todo: set<Key>): Tree
    requires p in t
  {
    map q | q in t ::
      if q == p then
        t[p].(totalKokkosRuntime := OwnKokkos(t)(p) + Sum(Done(t, p, todo), OwnKokkos(t)),
              totalNumberOfKernelCalls := KernelCallsAt(t)(p) + Sum(Done(t, p, todo), KernelCallsAt(t)))
      else if p <= q && q[|p|] !in todo then AdoptedAt(t, q)
      else t[q]
  }

  /** Adding what an adopted child holds. */
  function AddChild(d: Data, child: Data): Data {
    d.(totalKokkosRuntime := d.totalKokkosRuntime + child.totalKokkosRuntime,
       totalNumberOfKernelCalls := d.totalNumberOfKernelCalls + child.totalNumberOfKernelCalls)
  }

  lemma AdoptedStart(t: Tree, p: Path, todo: set<Key>)
    requires p in t && forall q :: q in t && p <= q && q != p ==> q[|p|] in todo
    ensures AdoptedPartly(t, p, todo)
         == t[p := t[p].(totalKokkosRuntime := t[p].totalKokkosRuntime + if IsKernel(p) then t[p].totalRuntime else 0)]
  {
    assert Done(t, p, todo) == {};
  }

  lemma SubtreeSumSame(t: Tree, u: Tree, c: Path, q: Path)
    requires t.Keys == u.Keys && c <= q && q in t
    requires forall r :: r in t && c <= r ==> t[r] == u[r]
    ensures AdoptedAt(t, q) == AdoptedAt(u, q)
  {
    assert Subtree(t, q) == Subtree(u, q);
    SumCongruent(Subtree(t, q), OwnKokkos(t), OwnKokkos(u));
    SumCongruent(Subtree(t, q), KernelCallsAt(t), KernelCallsAt(u));
  }

  lemma DoneGrows(t: Tree, p: Path, todo: set<Key>, k: Key, f: Path -> int)
    requires p in t && k in todo
    ensures Sum(Done(t, p, todo - {k}), f) == Sum(Done(t, p, todo), f) + Sum(Subtree(t, p + [k]), f)
  {
    assert Done(t, p, todo - {k}) == Done(t, p, todo) + Subtree(t, p + [k]) by {
      forall q | q in t && p <= q && q != p ensures q[|p|] == k <==> p + [k] <= q {
      }
    }
    SumUnion(Done(t, p, todo), Subtree(t, p + [k]), f);
  }

  /** Adopting the child `k` settles the nodes below it and leaves the others. */
  lemma AdoptedChildAt(t: Tree, p: Path, todo: set<Key>, k: Key, q: Path)
    requires p in t && k in todo && p + [k] in t && q in t
    ensures var below := AdoptedBelow(AdoptedPartly(t, p, todo), p + [k]);
      below[q] == if q == p then AdoptedPartly(t, p, todo)[p] else AdoptedPartly(t, p, todo - {k})[q]
    ensures p + [k] <= q ==> AdoptedBelow(AdoptedPartly(t, p, todo), p + [k])[q] == AdoptedAt(t, q)
  {
    var partly, c := AdoptedPartly(t, p, todo), p + [k];
    if c <= q {
      SubtreeSumSame(t, partly, c, q);
      assert p <= q && q[|p|] == k;
    } else if p <= q && q != p {
      assert q[|p|] != k;
    }
  }

  lemma AdoptedChild(t: Tree, p: Path, todo: set<Key>, k: Key)
    requires p in t && k in todo && p + [k] in t
    ensures var below := AdoptedBelow(AdoptedPartly(t, p, todo), p + [k]);
      below[p := AddChild(below[p], below[p + [k]])] == AdoptedPartly(t, p, todo - {k})
  {
    var below := AdoptedBelow(AdoptedPartly(t, p, todo), p + [k]);
    var next := below[p := AddChild(below[p], below[p + [k]])];
    AdoptedChildAt(t, p, todo, k, p);
    AdoptedChildAt(t, p, todo, k, p + [k]);
    DoneGrows(t, p, todo, k, OwnKokkos(t));
    DoneGrows(t, p, todo, k, KernelCallsAt(t));
    forall q | q in t ensures next[q] == AdoptedPartly(t, p, todo - {k})[q] {
      AdoptedChildAt(t, p, todo, k, q);
    }
  }

  lemma AdoptedEnd(t: Tree, p: Path)
    requires p in t
    ensures AdoptedPartly(t, p, {}) == AdoptedBelow(t, p)
  {
    assert Subtree(t, p) - {p} == Done(t, p, {});
    SumPick(Subtree(t, p), OwnKokkos(t), p);
    SumPick(Subtree(t, p), KernelCallsAt(t), p);
  }

  // ---- What the aggregated numbers mean ----

  ghost function SubtreeSum(t: Tree, f: Path -> int): Path -> int {
    p => Sum(Subtree(t, p), f)
  }

  lemma TowardsChild(t: Tree, p: Path, q: Path)
    requires WellFormed(t) && q in t && p <= q && q != p
    ensures ChildTowards(p)(q) in Children(t, p)
  {
    PrefixClosed(t, q, ChildTowards(p)(q));
  }

  /** A subtree is its root and the subtrees of the root's children. */
  lemma SubtreeUnfold(t: Tree, p: Path, f: Path -> int)
    requires WellFormed(t) && p in t
    ensures Sum(Subtree(t, p), f) == f(p) + Sum(Children(t, p), SubtreeSum(t, f))
  {
    var below, key := Subtree(t, p) - {p}, ChildTowards(p);
    SumPick(Subtree(t, p), f, p);
    forall q | q in below ensures key(q) in Children(t, p) { TowardsChild(t, p, q); }
    SumFibres(below, f, key, Children(t, p));
    forall c | c in Children(t, p) ensures FibreSum(below, f, key)(c) == SubtreeSum(t, f)(c) {
      ChildFibre(t, p, c);
    }
    SumCongruent(Children(t, p), FibreSum(below, f, key), SubtreeSum(t, f));
  }

  lemma ChildFibre(t: Tree, p: Path, c: Path)
    requires c in Children(t, p)
    ensures Fibre(Subtree(t, p) - {p}, ChildTowards(p), c) == Subtree(t, c)
  {
    forall q | q in t ensures (p <= q && q != p && ChildTowards(p)(q) == c) <==> c <= q {
      if c <= q { assert q[..|p| + 1] == c; }
    }
  }

  /** No kernel spent time inside another kernel. */
  ghost predicate KernelsApart(t: Tree) {
    forall p, q :: p in t && q in t && p <= q && p != q && IsKernel(p) && IsKernel(q) ==> t[q].totalRuntime == 0
  }

  ghost predicate NoKokkosYet(t: Tree) {
    forall p :: p in t ==> t[p].totalKokkosRuntime == 0
  }

  /** A kernel's Kokkos time exceeds its own time by what the kernels inside it took. */
  lemma KernelOvercount(t: Tree, p: Path)
    requires WellFormed(t) && NoKokkosYet(t) && p in t && IsKernel(p)
    ensures Adopted(t)[p].totalKokkosRuntime == t[p].totalRuntime + Sum(Subtree(t, p) - {p}, OwnKokkos(t))
  {
    SumPick(Subtree(t, p), OwnKokkos(t), p);
  }

  lemma {:induction false} KokkosWithinTotal(t: Tree, p: Path)
    requires NestedTotals(t) && NoKokkosYet(t) && KernelsApart(t) && p in t
    ensures Sum(Subtree(t, p), OwnKokkos(t)) <= t[p].totalRuntime
    decreases Subtree(t, p)
  {
    var f := OwnKokkos(t);
    if IsKernel(p) {
      KernelOvercount(t, p);
      SumZero(Subtree(t, p) - {p}, f);
    } else {
      SubtreeUnfold(t, p, f);
      forall c | c in Children(t, p) ensures SubtreeSum(t, f)(c) <= TotalAt(t)(c) {
        assert p in Subtree(t, p) && p !in Subtree(t, c);
        KokkosWithinTotal(t, c);
      }
      SumMonotone(Children(t, p), SubtreeSum(t, f), TotalAt(t));
    }
  }

  ghost predicate KokkosBounded(t: Tree, a: Tree)
    requires a.Keys == t.Keys
  {
    forall p :: p in t ==> a[p].totalKokkosRuntime <= t[p].totalRuntime
  }

  /** Aggregated Kokkos time stays within the total at every node exactly when no kernel
      spent time inside another kernel. */
  lemma KokkosWithinTotalIff(t: Tree)
    requires NestedTotals(t) && NoKokkosYet(t)
    ensures KokkosBounded(t, Adopted(t)) <==> KernelsApart(t)
  {
    if KernelsApart(t) {
      forall p | p in t ensures Adopted(t)[p].totalKokkosRuntime <= t[p].totalRuntime {
        KokkosWithinTotal(t, p);
      }
    }
    if KokkosBounded(t, Adopted(t)) {
      forall p, q | p in t && q in t && p <= q && p != q && IsKernel(p) && IsKernel(q)
        ensures t[q].totalRuntime == 0
      {
        BoundedKernel(t, p, q);
      }
    }
  }

  lemma BoundedKernel(t: Tree, p: Path, q: Path)
    requires NestedTotals(t) && NoKokkosYet(t)
    requires p in t && q in t && p <= q && p != q && IsKernel(p) && IsKernel(q)
    requires Adopted(t)[p].totalKokkosRuntime <= t[p].totalRuntime
    ensures t[q].totalRuntime == 0
  {
    KernelOvercount(t, p);
    SumNonNegative(Subtree(t, p) - {p}, OwnKokkos(t));
    assert OwnKokkos(t)(q) == t[q].totalRuntime;
  }
}
