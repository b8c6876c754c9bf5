/** The bottom-up tree: each node's own time, filed under its callers, innermost first. */
module Inversion {
  import opened Sums
  import opened CallTree

  /** The keys met on the walk from a node up to the root, both included. */
  ghost function Callers(q: Path): (c: Path)
    ensures |c| == |q| + 1
  {
    if q == [] then [ROOT_KEY] else [Last(q)] + Callers(Parent(q))
  }

  /** The path `n` levels up. */
  ghost function Ancestor(q: Path, n: nat): Path
    requires n <= |q|
  {
    q[..|q| - n]
  }

  /** The bottom-up path reached after `n` steps of the walk. */
  ghost function StepAt(q: Path, n: nat): Path
    requires n <= |q| + 1
  {
    if n == 0 then [] else StepAt(q, n - 1) + [KeyOf(Ancestor(q, n - 1))]
  }

  lemma {:induction false} StepsAreCallers(q: Path, n: nat)
    requires n <= |q| + 1
    ensures StepAt(q, n) == Callers(q)[..n]
  {
    if n > 0 {
      StepsAreCallers(q, n - 1);
      CallersAt(q, n - 1);
    }
  }

  /** The `n`-th key of the walk is that of the node `n` levels up. */
  lemma {:induction false} CallersAt(q: Path, n: nat)
    requires n <= |q|
    ensures Callers(q)[n] == KeyOf(Ancestor(q, n))
    decreases |q|
  {
    if n == 0 {
      assert q[..|q|] == q;
      if q != [] { assert Callers(q) == [Last(q)] + Callers(Parent(q)); }
    } else {
      CallersAt(Parent(q), n - 1);
      assert Ancestor(Parent(q), n - 1) == Ancestor(q, n);
      assert Callers(q) == [Last(q)] + Callers(Parent(q));
    }
  }

  /** What is left of a node's time without its children, never below zero. */
  ghost function SelfTime(t: Tree): Path -> int {
    p => if TotalAt(t)(p) < Sum(Children(t, p), TotalAt(t)) then 0
         else TotalAt(t)(p) - Sum(Children(t, p), TotalAt(t))
  }

  ghost function SelfKokkos(t: Tree): Path -> int {
    p => if KokkosAt(t)(p) < Sum(Children(t, p), KokkosAt(t)) then 0
         else KokkosAt(t)(p) - Sum(Children(t, p), KokkosAt(t))
  }

  /** The nodes of `s` whose walk to the root begins with `p`. */
  ghost function Under(s: set<Path>, p: Path): set<Path> {
    set q | q in s && p <= Callers(q)
  }

  ghost function Walks(s: set<Path>): set<Path> {
    {[]} + set q, n | q in s && 0 <= n <= |q| + 1 :: Callers(q)[..n]
  }

  /** What each node contributes to the bottom-up tree. */
  datatype Weights = Weights(time: Path -> int, kokkos: Path -> int, calls: Path -> int)

  ghost function WeightsOf(t: Tree): Weights {
    Weights(SelfTime(t), SelfKokkos(t), CallsAt(t))
  }

  /** The bottom-up tree of the nodes in `s`. */
  ghost function InvertedPart(w: Weights, s: set<Path>): Tree {
    map p | p in Walks(s) :: Aggregate(w, Under(s, p))
  }

  ghost function Inverted(t: Tree): Tree {
    InvertedPart(WeightsOf(t), t.Keys)
  }

  ghost function Aggregate(w: Weights, s: set<Path>): Data {
    NEW_NODE.(totalRuntime := Sum(s, w.time),
              totalKokkosRuntime := Sum(s, w.kokkos),
              numberOfCalls := Sum(s, w.calls))
  }

  lemma InvertedNone(w: Weights)
    ensures InvertedPart(w, {}) == map[[] := NEW_NODE]
  {
    assert Under({}, []) == {};
    assert Walks({}) == {[]};
  }

  lemma InWalks(s: set<Path>, p: Path)
    ensures p in Walks(s) <==> p == [] || Under(s, p) != {}
  {
    if q :| q in s && p <= Callers(q) {
      assert q in Under(s, p);
      assert p == Callers(q)[..|p|];
    }
    if p in Walks(s) && p != [] {
      var q, n :| q in s && 0 <= n <= |q| + 1 && p == Callers(q)[..n];
      assert q in Under(s, p);
    }
  }

  // ---- The walk from one node to the root ----

  /** The share of one node, credited to every node on its walk. */
  datatype Share = Share(time: int, kokkos: int, calls: int)

  ghost function ShareOf(w: Weights, q: Path): Share {
    Share(w.time(q), w.kokkos(q), w.calls(q))
  }

  function Credit(d: Data, s: Share): Data {
    d.(totalRuntime := d.totalRuntime + s.time,
       totalKokkosRuntime := d.totalKokkosRuntime + s.kokkos,
       numberOfCalls := d.numberOfCalls + s.calls)
  }

  /** The first `n` steps of the walk of `q`, and where it started. */
  ghost function Steps(q: Path, n: nat): set<Path>
    requires n <= |q| + 1
  {
    set i | 0 <= i <= n :: Callers(q)[..i]
  }

  lemma InSteps(q: Path, n: nat, p: Path)
    requires n <= |q| + 1
    ensures p in Steps(q, n) <==> p <= Callers(q) && |p| <= n
  {
    if p <= Callers(q) { assert p == Callers(q)[..|p|]; }
  }

  ghost function WalkedAt(w: Weights, s: set<Path>, q: Path, n: nat, p: Path): Data {
    var d := Aggregate(w, Under(s, p));
    if p <= Callers(q) && |p| <= n then Credit(d, ShareOf(w, q)) else d
  }

  /** The tree once the walk of `q` has credited its first `n` steps below the root. */
  ghost function Walked(w: Weights, s: set<Path>, q: Path, n: nat): Tree
    requires n <= |q| + 1
  {
    map p | p in Walks(s) + Steps(q, n) :: WalkedAt(w, s, q, n, p)
  }

  lemma WalkStart(w: Weights, s: set<Path>, q: Path)
    ensures [] in InvertedPart(w, s)
    ensures Walked(w, s, q, 0) == InvertedPart(w, s)[[] := Credit(InvertedPart(w, s)[[]], ShareOf(w, q))]
  {
    forall p ensures p in Steps(q, 0) <==> p == [] { InSteps(q, 0, p); }
  }

  /** One step up the walk: the next node is looked up, created if missing, and credited. */
  ghost function StepUp(w: Weights, before: Tree, q: Path, n: nat): Tree
    requires n <= |q|
  {
    var here := Callers(q)[..n];
    var c, grown := here + [Callers(q)[n]], EnsureChild(before, here, Callers(q)[n]);
    grown[c := Credit(grown[c], ShareOf(w, q))]
  }

  lemma WalkStepAt(w: Weights, s: set<Path>, q: Path, n: nat, p: Path)
    requires n <= |q|
    ensures p in Walked(w, s, q, n + 1) <==> p in StepUp(w, Walked(w, s, q, n), q, n)
    ensures p in Walked(w, s, q, n + 1) ==> Walked(w, s, q, n + 1)[p] == StepUp(w, Walked(w, s, q, n), q, n)[p]
  {
    var c := Callers(q)[..n] + [Callers(q)[n]];
    assert c == Callers(q)[..n + 1];
    InSteps(q, n, p);
    InSteps(q, n + 1, p);
    if p <= Callers(q) && |p| == n + 1 {
      assert p == c;
      InWalks(s, p);
      if p !in Walks(s) {
        NobodyUnder(w, s, p);
      }
    }
  }

  lemma WalkStep(w: Weights, s: set<Path>, q: Path, n: nat)
    requires n <= |q|
    ensures Callers(q)[..n] in Walked(w, s, q, n)
    ensures Walked(w, s, q, n + 1) == StepUp(w, Walked(w, s, q, n), q, n)
  {
    InSteps(q, n, Callers(q)[..n]);
    forall p ensures p in Walked(w, s, q, n + 1) <==> p in StepUp(w, Walked(w, s, q, n), q, n) {
      WalkStepAt(w, s, q, n, p);
    }
    forall p | p in Walked(w, s, q, n + 1)
      ensures Walked(w, s, q, n + 1)[p] == StepUp(w, Walked(w, s, q, n), q, n)[p]
    {
      WalkStepAt(w, s, q, n, p);
    }
  }

  lemma NobodyUnder(w: Weights, s: set<Path>, p: Path)
    requires p !in Walks(s)
    ensures Aggregate(w, Under(s, p)) == NEW_NODE
  {
    InWalks(s, p);
  }

  lemma WalkEnd(w: Weights, s: set<Path>, q: Path)
    requires q !in s
    ensures Walked(w, s, q, |q| + 1) == InvertedPart(w, s + {q})
  {
    var u, v := Walked(w, s, q, |q| + 1), InvertedPart(w, s + {q});
    forall p ensures p in u <==> p in v { WalkDomain(s, q, p); }
    forall p | p in v ensures u[p] == v[p] {
      UnderGrows(w, s, q, p);
    }
  }

  lemma WalkDomain(s: set<Path>, q: Path, p: Path)
    ensures p in Walks(s + {q}) <==> p in Walks(s) + Steps(q, |q| + 1)
  {
    InWalks(s, p);
    InWalks(s + {q}, p);
    InSteps(q, |q| + 1, p);
    assert Under(s + {q}, p) == Under(s, p) + if p <= Callers(q) then {q} else {};
  }

  lemma UnderGrows(w: Weights, s: set<Path>, q: Path, p: Path)
    requires q !in s
    ensures Aggregate(w, Under(s + {q}, p)) ==
      if p <= Callers(q) then Credit(Aggregate(w, Under(s, p)), ShareOf(w, q)) else Aggregate(w, Under(s, p))
  {
    if p <= Callers(q) {
      var u := Under(s + {q}, p);
      assert u - {q} == Under(s, p);
      SumPick(u, w.time, q);
      SumPick(u, w.kokkos, q);
      SumPick(u, w.calls, q);
    } else {
      assert Under(s + {q}, p) == Under(s, p);
    }
  }

  /** The child `k` of `p` is looked up, created if missing, and credited. */
  function CreditChild(t: Tree, p: Path, k: Key, share: Share): (r: Tree)
    ensures p + [k] in r && ([] in t ==> [] in r)
  {
    var grown := EnsureChild(t, p, k);
    grown[p + [k] := Credit(grown[p + [k]], share)]
  }

  /** The walk as the loop takes it: the root is credited, then `n` nodes are looked up and credited. */
  ghost function WalkUp(t: Tree, q: Path, n: nat, share: Share): (r: Tree)
    requires n <= |q| + 1 && [] in t
    ensures [] in r && StepAt(q, n) in r
  {
    if n == 0 then t[[] := Credit(t[[]], share)]
    else CreditChild(WalkUp(t, q, n - 1, share), StepAt(q, n - 1), KeyOf(Ancestor(q, n - 1)), share)
  }

  lemma WalkUpStart(t: Tree, q: Path, share: Share)
    requires [] in t
    ensures WalkUp(t, q, 0, share) == t[[] := Credit(t[[]], share)]
    ensures StepAt(q, 0) == [] && Ancestor(q, 0) == q
  {
  }

  lemma WalkUpNext(t: Tree, q: Path, n: nat, share: Share)
    requires [] in t && n <= |q|
    ensures StepAt(q, n + 1) == StepAt(q, n) + [KeyOf(Ancestor(q, n))]
    ensures WalkUp(t, q, n + 1, share)
      == CreditChild(WalkUp(t, q, n, share), StepAt(q, n), KeyOf(Ancestor(q, n)), share)
    ensures Ancestor(q, n) == [] <==> n == |q|
    ensures n < |q| ==> Parent(Ancestor(q, n)) == Ancestor(q, n + 1)
  {
  }

  lemma StepUpIsCredit(w: Weights, before: Tree, q: Path, n: nat)
    requires n <= |q|
    ensures StepUp(w, before, q, n) == CreditChild(before, StepAt(q, n), KeyOf(Ancestor(q, n)), ShareOf(w, q))
  {
    StepsAreCallers(q, n);
    CallersAt(q, n);
  }

  lemma {:induction false} WalkUpIsWalked(w: Weights, s: set<Path>, q: Path, n: nat)
    requires n <= |q| + 1
    ensures [] in InvertedPart(w, s)
    ensures WalkUp(InvertedPart(w, s), q, n, ShareOf(w, q)) == Walked(w, s, q, n)
  {
    hide Walked, StepUp, InvertedPart, Callers;
    WalkStart(w, s, q);
    if n > 0 {
      WalkUpIsWalked(w, s, q, n - 1);
      StepUpIsCredit(w, Walked(w, s, q, n - 1), q, n - 1);
      WalkStep(w, s, q, n - 1);
    }
  }

  /** A whole walk adds the node to those the bottom-up tree accounts for. */
  lemma WholeWalk(w: Weights, s: set<Path>, q: Path)
    requires q !in s
    ensures [] in InvertedPart(w, s)
    ensures WalkUp(InvertedPart(w, s), q, |q| + 1, ShareOf(w, q)) == InvertedPart(w, s + {q})
  {
    WalkUpIsWalked(w, s, q, |q| + 1);
    WalkEnd(w, s, q);
  }

  lemma OneMore(t: Tree, seen: set<Path>, c: Path)
    requires c in t && c !in seen
    ensures Sum(seen + {c}, TotalAt(t)) == Sum(seen, TotalAt(t)) + t[c].totalRuntime
    ensures Sum(seen + {c}, KokkosAt(t)) == Sum(seen, KokkosAt(t)) + t[c].totalKokkosRuntime
  {
    SumPick(seen + {c}, TotalAt(t), c);
    SumPick(seen + {c}, KokkosAt(t), c);
    assert seen + {c} - {c} == seen;
  }

  lemma OwnShare(t: Tree, p: Path)
    requires p in t
    ensures var time, kokkos := t[p].totalRuntime - Sum(Children(t, p), TotalAt(t)),
        t[p].totalKokkosRuntime - Sum(Children(t, p), KokkosAt(t));
      ShareOf(WeightsOf(t), p)
        == Share(if time < 0 then 0 else time, if kokkos < 0 then 0 else kokkos, t[p].numberOfCalls)
  {
  }
}
