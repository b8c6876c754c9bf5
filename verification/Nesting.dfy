/** Over every run with a monotone clock, children never take longer than their parent. */
module Nesting {
  import opened Sums
  import opened CallTree
  import opened Profile

  /** The clock after `es`, which began at `start`. */
  function Clock(start: int, es: seq<Event>): int {
    if es == [] then start else es[|es| - 1].time
  }

  predicate Monotone(start: int, es: seq<Event>) {
    forall i :: 0 <= i < |es| ==> Clock(start, es[..i]) <= es[i].time
  }

  /** Time spent at a path until `now`: finished activations plus the open one, if any. */
  ghost function Busy(t: Tree, frame: Path, now: int): Path -> int {
    p => if p in t then t[p].totalRuntime + (if p <= frame then now - t[p].startTime else 0) else 0
  }

  /** What holds of every reachable state: open activations included, the children of a node
      have together been busy for no longer than the node. */
  ghost predicate Nested(t: Tree, frame: Path, now: int) {
    && WellFormed(t) && frame in t
    && (forall p :: p in t ==> 0 <= t[p].totalRuntime && (p <= frame ==> t[p].startTime <= now))
    && (forall p :: p in t ==> Sum(Children(t, p), Busy(t, frame, now)) <= Busy(t, frame, now)(p))
  }

  /** The same of a finished tree. */
  ghost predicate NestedTotals(t: Tree) {
    && WellFormed(t)
    && (forall p :: p in t ==> 0 <= t[p].totalRuntime)
    && (forall p :: p in t ==> Sum(Children(t, p), TotalAt(t)) <= t[p].totalRuntime)
  }

  /** The two time columns of a node. */
  datatype Field = Total | KokkosTotal

  ghost function Read(f: Field, t: Tree): Path -> int {
    if f.Total? then TotalAt(t) else KokkosAt(t)
  }

  /** The same of either column. */
  ghost predicate NestedBy(f: Field, t: Tree) {
    && WellFormed(t)
    && forall p :: p in t ==> 0 <= Read(f, t)(p) && Sum(Children(t, p), Read(f, t)) <= Read(f, t)(p)
  }

  lemma NestedBoth(t: Tree)
    ensures NestedBy(Total, t) <==> NestedTotals(t)
  {
    forall p ensures Read(Total, t)(p) == TotalAt(t)(p) {
    }
  }

  lemma OpenChild(t: Tree, frame: Path, p: Path, q: Path)
    requires q in Children(t, p)
    ensures q in t && (q <= frame <==> p <= frame && p != frame && q == frame[..|p| + 1])
  {
  }

  /** Only what is open gets busier as time passes. */
  lemma LaterBusy(t: Tree, frame: Path, now: int, later: int, q: Path)
    ensures Busy(t, frame, later)(q) == Busy(t, frame, now)(q) + if q in t && q <= frame then later - now else 0
  {
  }

  /** Among the children of one node at most one is open, and then the node is open too. */
  lemma OpenChildren(t: Tree, frame: Path, p: Path, now: int, later: int)
    requires Nested(t, frame, now) && now <= later && p in t
    ensures Sum(Children(t, p), Busy(t, frame, later))
         <= Sum(Children(t, p), Busy(t, frame, now)) + if p <= frame then later - now else 0
  {
    hide Nested, Busy, Children, Sum;
    var kids, f, g := Children(t, p), Busy(t, frame, now), Busy(t, frame, later);
    forall q | q in kids ensures q in t && (q <= frame <==> p <= frame && p != frame && q == frame[..|p| + 1]) {
      OpenChild(t, frame, p, q);
    }
    forall q ensures g(q) == f(q) + if q in t && q <= frame then later - now else 0 {
      LaterBusy(t, frame, now, later, q);
    }
    if p <= frame && p != frame && frame[..|p| + 1] in kids {
      var c := frame[..|p| + 1];
      SumPick(kids, f, c);
      SumPick(kids, g, c);
      SumCongruent(kids - {c}, f, g);
    } else {
      SumCongruent(kids, f, g);
    }
  }

  lemma Tick(t: Tree, frame: Path, now: int, later: int)
    requires Nested(t, frame, now) && now <= later
    ensures Nested(t, frame, later)
  {
    forall p | p in t ensures Sum(Children(t, p), Busy(t, frame, later)) <= Busy(t, frame, later)(p) {
      OpenChildren(t, frame, p, now, later);
    }
  }

  /** Entering a child at this very moment keeps everyone's busy time. */
  lemma EnterBusy(t: Tree, frame: Path, k: Key, now: int, q: Path)
    requires frame in t
    ensures Busy(BeginFrame(t, frame, k, now), frame + [k], now)(q) == Busy(t, frame, now)(q)
  {
    var c := frame + [k];
    if q != c {
      assert q <= frame <==> q <= c by {
        if q <= c { assert |q| <= |frame|; }
      }
    }
  }

  lemma EnterNested(t: Tree, frame: Path, k: Key, now: int)
    requires Nested(t, frame, now)
    ensures Nested(BeginFrame(t, frame, k, now), frame + [k], now)
  {
    var c, t' := frame + [k], BeginFrame(t, frame, k, now);
    var f, g := Busy(t, frame, now), Busy(t', c, now);
    ParentOfChild(frame, k);
    forall p | p in t' ensures Sum(Children(t', p), g) <= g(p) {
      EnterSum(t, frame, k, now, p);
    }
    forall p | p in t' ensures 0 <= t'[p].totalRuntime && (p <= c ==> t'[p].startTime <= now) {
      if p != c && p <= c { assert p <= frame; }
    }
    assert forall q :: q in t' <==> q in t || q == c;
    assert WellFormed(t');
  }

  lemma EnterSum(t: Tree, frame: Path, k: Key, now: int, p: Path)
    requires Nested(t, frame, now) && p in BeginFrame(t, frame, k, now)
    ensures var t' := BeginFrame(t, frame, k, now);
      Sum(Children(t', p), Busy(t', frame + [k], now)) <= Busy(t', frame + [k], now)(p)
  {
    var c, t' := frame + [k], BeginFrame(t, frame, k, now);
    var f, g := Busy(t, frame, now), Busy(t', c, now);
    ParentOfChild(frame, k);
    assert Sum(Children(t', p), g) == Sum(Children(t', p), f) by {
      forall q | q in Children(t', p) ensures f(q) == g(q) { EnterBusy(t, frame, k, now, q); }
      SumCongruent(Children(t', p), g, f);
    }
    EnterBusy(t, frame, k, now, p);
    assert Children(t', p) == Children(EnsureChild(t, frame, k), p);
    NewChildIdle(t, p, c, f);
  }

  /** A child with no time of its own adds nothing to its parent's sum. */
  lemma NewChildIdle(t: Tree, p: Path, c: Path, f: Path -> int)
    requires WellFormed(t) && c != [] && Parent(c) in t && (p in t || p == c)
    requires c !in t ==> f(c) == 0
    requires p in t ==> Sum(Children(t, p), f) <= f(p)
    ensures Sum(Children(if c in t then t else t[c := NEW_NODE], p), f) <= f(p)
  {
    var t' := if c in t then t else t[c := NEW_NODE];
    if c !in t {
      if p == c {
        assert Children(t', p) == {};
      } else if p == Parent(c) {
        assert Children(t', p) == Children(t, p) + {c};
        SumPick(Children(t', p), f, c);
        assert Children(t', p) - {c} == Children(t, p);
      } else {
        assert Children(t', p) == Children(t, p);
      }
    }
  }

  /** Leaving the frame at this very moment keeps everyone's busy time. */
  lemma LeaveBusy(t: Tree, frame: Path, now: int, q: Path)
    requires frame in t && frame != []
    ensures Busy(t[frame := Ended(t[frame], now)], Parent(frame), now)(q) == Busy(t, frame, now)(q)
  {
    if q in t && q != frame {
      assert q <= frame <==> q <= Parent(frame);
    }
  }

  lemma LeaveNested(t: Tree, frame: Path, now: int)
    requires Nested(t, frame, now) && frame != []
    ensures Nested(t[frame := Ended(t[frame], now)], Parent(frame), now)
  {
    var t' := t[frame := Ended(t[frame], now)];
    var f, g := Busy(t, frame, now), Busy(t', Parent(frame), now);
    forall q ensures f(q) == g(q) { LeaveBusy(t, frame, now, q); }
    forall p | p in t' ensures Sum(Children(t', p), g) <= g(p) {
      assert Children(t', p) == Children(t, p);
      SumCongruent(Children(t, p), g, f);
    }
    assert forall q :: q in t' <==> q in t;
    assert WellFormed(t');
  }

  /** Every reachable state of a run with a monotone clock. */
  lemma {:induction false} RunNested(start: int, es: seq<Event>)
    requires WellNested(es) && Monotone(start, es)
    ensures Run(start, es).Running? && Nested(Run(start, es).tree, Run(start, es).frame, Clock(start, es))
  {
    RunRefines(start, es);
    var s := Run(start, es);
    if es == [] {
      assert Children(s.tree, []) == {};
    } else {
      var pre, e := es[..|es| - 1], es[|es| - 1];
      forall i | 0 <= i < |pre| ensures Clock(start, pre[..i]) <= pre[i].time {
        assert pre[..i] == es[..i];
      }
      RunNested(start, pre);
      var b := Run(start, pre);
      assert Clock(start, es[..|es| - 1]) <= e.time;
      Tick(b.tree, b.frame, Clock(start, pre), e.time);
      if e.Enter? {
        EnterNested(b.tree, b.frame, e.key, e.time);
      } else {
        LeaveNested(b.tree, b.frame, e.time);
      }
    }
  }

  /** The tree the profiler keeps when it shuts down at `end` with the root as its frame. */
  function Finished(t: Tree, end: int): Tree
    requires [] in t
  {
    t[[] := Ended(t[[]], end)]
  }

  /** A finished run: children's total runtimes sum to no more than their parent's. */
  lemma FinishedNested(start: int, es: seq<Event>, end: int)
    requires WellNested(es) && Monotone(start, es) && Clock(start, es) <= end
    requires Open(es) == []
    ensures Run(start, es).Running? && Run(start, es).frame == []
    ensures NestedTotals(Finished(Run(start, es).tree, end))
  {
    RunRefines(start, es);
    RunNested(start, es);
    var t := Run(start, es).tree;
    Tick(t, [], Clock(start, es), end);
    var t' := Finished(t, end);
    var f, g := Busy(t, [], end), TotalAt(t');
    forall q ensures f(q) == g(q) {
    }
    forall p | p in t' ensures Sum(Children(t', p), g) <= t'[p].totalRuntime {
      assert Children(t', p) == Children(t, p);
      SumCongruent(Children(t, p), g, f);
      assert f(p) == g(p);
    }
    assert forall q :: q in t' <==> q in t;
    assert WellFormed(t');
  }
}
