/** Breadth-first traversal of a call tree with a queue. */
module Traversal {
  import opened CallTree

  ghost predicate NoDuplicates(ps: seq<Path>) {
    forall i, j :: 0 <= i < j < |ps| ==> ps[i] != ps[j]
  }

  /** `done` has been visited; the queue holds exactly the nodes that hang below `done` but are not in it. */
  ghost predicate Frontier(t: Tree, done: set<Path>, queue: seq<Path>) {
    && WellFormed(t) && done <= t.Keys
    && NoDuplicates(queue) && (forall p :: p in queue ==> p in t && p !in done)
    && ([] in done || [] in queue)
    && (forall p {:trigger Parent(p)} :: p in t && p != [] ==> (Parent(p) in done <==> p in done || p in queue))
  }

  /** `kids` lists the children of `p` once each. */
  ghost predicate Lists(t: Tree, p: Path, kids: seq<Path>) {
    NoDuplicates(kids) && forall c :: c in kids <==> c in Children(t, p)
  }

  /** `seen` holds the children of `p` but for those whose keys are still to do. */
  ghost predicate AllBut(t: Tree, p: Path, todo: set<Key>, seen: set<Path>) {
    forall c :: c in seen <==> c in Children(t, p) && Last(c) !in todo
  }

  lemma OneLess(t: Tree, p: Path, todo: set<Key>, seen: set<Path>, k: Key)
    requires AllBut(t, p, todo, seen) && k in todo && p + [k] in t
    ensures p + [k] !in seen && p + [k] in Children(t, p)
    ensures AllBut(t, p, todo - {k}, seen + {p + [k]})
  {
    ParentOfChild(p, k);
    forall c | c in Children(t, p) && Last(c) == k ensures c == p + [k] {
    }
  }

  lemma AllSeen(t: Tree, p: Path, seen: set<Path>)
    requires AllBut(t, p, {}, seen)
    ensures seen == Children(t, p)
  {
  }

  lemma FrontierStart(t: Tree)
    requires WellFormed(t)
    ensures Frontier(t, {}, [[]])
  {
  }

  lemma FrontierStep(t: Tree, done: set<Path>, queue: seq<Path>, kids: seq<Path>)
    requires Frontier(t, done, queue) && queue != [] && Lists(t, queue[0], kids)
    ensures queue[0] in t && queue[0] !in done
    ensures Frontier(t, done + {queue[0]}, queue[1..] + kids)
  {
    var done', queue' := done + {queue[0]}, queue[1..] + kids;
    assert queue == [queue[0]] + queue[1..];
    forall c | c in kids ensures c !in queue && c !in done {
      assert Parent(c) == queue[0];
    }
    forall i, j | 0 <= i < j < |queue'| ensures queue'[i] != queue'[j] {
      if i < |queue| - 1 <= j {
        assert queue'[j] in kids && queue'[i] in queue;
      }
    }
    forall p {:trigger Parent(p)} | p in t && p != []
      ensures Parent(p) in done' <==> p in done' || p in queue'
    {
      assert p in queue' <==> p in queue[1..] || p in kids;
    }
  }

  lemma FrontierEnd(t: Tree, done: set<Path>)
    requires Frontier(t, done, [])
    ensures done == t.Keys
  {
    forall p | p in t ensures p in done {
      ReachesDone(t, done, p);
    }
  }

  lemma {:induction false} ReachesDone(t: Tree, done: set<Path>, p: Path)
    requires Frontier(t, done, []) && p in t
    ensures p in done
    decreases |p|
  {
    if p != [] {
      ReachesDone(t, done, Parent(p));
    }
  }
}
