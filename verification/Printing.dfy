/** The text report: which nodes it shows, how often, and in what order. */
module Printing {
  import opened CallTree
  import opened Traversal
  import opened Orders

  datatype Settings = Settings(treeTime: int, threshold: real)

  datatype Line = Line(indent: string, node: Path)

  /** The test that cuts a subtree. With no time at all the quotient is not a number, or infinite,
      and only a negative one counts as below. */
  predicate IsBelow(r: Settings, d: Data) {
    if r.treeTime == 0 then d.maxRuntime * d.commSize < 0
    else (d.maxRuntime * d.commSize) as real / r.treeTime as real * 100.0 < r.threshold
  }

  lemma ChildrenAreSiblings(t: Tree, p: Path)
    ensures Siblings(Children(t, p))
  {
  }

  lemma ChildSubtree(t: Tree, p: Path, c: Path)
    requires p in t && c in Children(t, p)
    ensures Subtree(t, c) < Subtree(t, p)
  {
    assert p in Subtree(t, p) && p !in Subtree(t, c);
    forall q | q in Subtree(t, c) ensures q in Subtree(t, p) { assert p <= c; }
  }

  ghost function PrintFrom(t: Tree, p: Path, indent: string, childIndent: string, r: Settings): seq<Line>
    requires p in t
    decreases Subtree(t, p), 1, 0
  {
    if IsBelow(r, t[p]) then [] else
      ChildrenAreSiblings(t, p);
      OrderedMembers(t, Children(t, p));
      (if KeyOf(p).name == "" then [] else [Line(indent, p)])
        + PrintKids(t, p, Ordered(t, Children(t, p)), childIndent, r)
  }

  ghost function PrintKids(t: Tree, p: Path, kids: seq<Path>, childIndent: string, r: Settings): seq<Line>
    requires p in t && forall c :: c in kids ==> c in Children(t, p)
    decreases Subtree(t, p), 0, |kids|
  {
    if kids == [] then [] else
      ChildSubtree(t, p, kids[0]);
      PrintFrom(t, kids[0], childIndent + "|-> ", childIndent + (if |kids| == 1 then "    " else "|   "), r)
        + PrintKids(t, p, kids[1..], childIndent, r)
  }

  /** Tied with a sibling that comes first by kind. */
  ghost predicate Shadowed(t: Tree, s: set<Path>, c: Path) {
    exists d :: d in s && Tied(t, d, c) && Rank(KeyOf(d).kind) < Rank(KeyOf(c).kind)
  }

  ghost predicate StrictlyByTime(t: Tree, list: seq<Path>) {
    forall i, j :: 0 <= i < j < |list| ==> ByTime(t, list[i], list[j])
  }

  /** The report's order visits every sibling that is not shadowed, longest first. */
  lemma {:induction false} OrderedMembers(t: Tree, s: set<Path>)
    requires Siblings(s)
    ensures forall c :: c in Ordered(t, s) <==> c in s && !Shadowed(t, s, c)
    ensures StrictlyByTime(t, Ordered(t, s))
    decreases |s|
  {
    hide NameLess, ByTime, Tied, Rank;
    if s != {} {
      var m := First(t, s);
      var rest := After(t, s, m);
      ByTimeTotal(t, m, m);
      SmallerSet(rest, s);
      OrderedMembers(t, rest);
      forall c ensures c in Ordered(t, s) <==> c in s && !Shadowed(t, s, c) {
        FirstAndRest(t, s, c);
      }
      forall j | 0 <= j < |Ordered(t, rest)| ensures ByTime(t, m, Ordered(t, rest)[j]) {
        assert Ordered(t, rest)[j] in rest;
      }
    }
  }

  lemma FirstAndRest(t: Tree, s: set<Path>, c: Path)
    requires Siblings(s) && s != {}
    ensures var rest := After(t, s, First(t, s));
      c in s && !Shadowed(t, s, c) <==> c == First(t, s) || (c in rest && !Shadowed(t, rest, c))
  {
    hide NameLess, ByTime, Tied;
    var m := First(t, s);
    var rest := After(t, s, m);
    ByTimeTotal(t, m, c);
    if c == m && Shadowed(t, s, m) {
      var d :| d in s && Tied(t, d, m) && Rank(KeyOf(d).kind) < Rank(KeyOf(m).kind);
      ByTimeTotal(t, d, m);
      TiedSymmetric(t, d, m);
    }
    if c in rest && Shadowed(t, s, c) {
      var d :| d in s && Tied(t, d, c) && Rank(KeyOf(d).kind) < Rank(KeyOf(c).kind);
      TiedSymmetric(t, d, c);
      ByTimeTransitive(t, m, c, d);
      assert d in rest;
    }
    if c in s && c != m && c !in rest {
      assert Before(t, m, c) && Tied(t, m, c);
    }
  }

  lemma TiedSymmetric(t: Tree, a: Path, b: Path)
    requires Tied(t, a, b)
    ensures Tied(t, b, a)
  {
  }

  // ---- What is printed ----

  ghost function Nodes(lines: seq<Line>): seq<Path> {
    seq(|lines|, i requires 0 <= i < |lines| => lines[i].node)
  }

  lemma NodesOfConcat(a: seq<Line>, b: seq<Line>)
    ensures Nodes(a + b) == Nodes(a) + Nodes(b)
  {
  }

  ghost predicate Between(p: Path, s: Path, q: Path) {
    p <= s && s <= q
  }

  /** A step of the way down from `p` that the report does not take. */
  ghost predicate Cut(t: Tree, r: Settings, p: Path, s: Path) {
    s !in t || IsBelow(r, t[s]) || (s != p && s != [] && Shadowed(t, Children(t, Parent(s)), s))
  }

  /** Printing from `p` gets to `q`: nothing on the way is under the threshold or shadowed by a sibling. */
  ghost predicate Reached(t: Tree, r: Settings, p: Path, q: Path) {
    p <= q && q in t && forall s :: Between(p, s, q) ==> !Cut(t, r, p, s)
  }

  ghost predicate Printed(t: Tree, r: Settings, p: Path, q: Path) {
    Reached(t, r, p, q) && KeyOf(q).name != ""
  }

  lemma ReachedThrough(t: Tree, r: Settings, p: Path, q: Path)
    requires WellFormed(t) && p in t && p <= q && p != q
    ensures var c := ChildTowards(p)(q);
      Reached(t, r, p, q) <==>
        !IsBelow(r, t[p]) && c in Children(t, p) && !Shadowed(t, Children(t, p), c) && Reached(t, r, c, q)
  {
    hide Shadowed;
    var c := ChildTowards(p)(q);
    assert Between(p, p, q) && Between(p, c, q) && Between(c, c, q) && Parent(c) == p;
    forall s ensures Between(p, s, q) <==> s == p || Between(c, s, q) {
      if Between(p, s, q) && s != p { assert s[..|p| + 1] == c; }
    }
  }

  lemma ReachedSelf(t: Tree, r: Settings, p: Path)
    requires p in t
    ensures Reached(t, r, p, p) <==> !IsBelow(r, t[p])
  {
    hide Shadowed;
    assert Between(p, p, p);
    forall s | Between(p, s, p) ensures s == p {
    }
  }

  lemma ReachedBelow(t: Tree, r: Settings, p: Path, q: Path)
    requires p in t
    ensures Reached(t, r, p, q) ==> p <= q && !IsBelow(r, t[p])
  {
    assert p <= q ==> Between(p, p, q);
  }

  /** Each node that printing gets to is printed exactly once, and no other node is. */
  lemma {:induction false} PrintExact(t: Tree, p: Path, indent: string, childIndent: string, r: Settings, q: Path)
    requires WellFormed(t) && p in t
    ensures multiset(Nodes(PrintFrom(t, p, indent, childIndent, r)))[q] == if Printed(t, r, p, q) then 1 else 0
    decreases Subtree(t, p), 1, 0
  {
    hide Reached, Shadowed, IsBelow, Ordered;
    var kids := Children(t, p);
    ReachedSelf(t, r, p);
    if p <= q && p != q { ReachedThrough(t, r, p, q); }
    ReachedBelow(t, r, p, q);
    if !IsBelow(r, t[p]) {
      ChildrenAreSiblings(t, p);
      OrderedMembers(t, kids);
      StrictDistinct(t, Ordered(t, kids));
      var own := if KeyOf(p).name == "" then [] else [Line(indent, p)];
      var rest := PrintKids(t, p, Ordered(t, kids), childIndent, r);
      assert PrintFrom(t, p, indent, childIndent, r) == own + rest;
      PrintKidsExact(t, p, Ordered(t, kids), childIndent, r, q);
      NodesOfConcat(own, rest);
      assert Nodes(own) == if KeyOf(p).name == "" then [] else [p];
    }
  }

  lemma StrictDistinct(t: Tree, list: seq<Path>)
    requires StrictlyByTime(t, list)
    ensures NoDuplicates(list)
  {
    forall i, j | 0 <= i < j < |list| ensures list[i] != list[j] {
      ByTimeTotal(t, list[i], list[j]);
    }
  }

  lemma {:induction false} PrintKidsExact(t: Tree, p: Path, kids: seq<Path>, childIndent: string, r: Settings, q: Path)
    requires WellFormed(t) && p in t && (forall c :: c in kids ==> c in Children(t, p)) && NoDuplicates(kids)
    ensures multiset(Nodes(PrintKids(t, p, kids, childIndent, r)))[q]
         == if p <= q && p != q && ChildTowards(p)(q) in kids && Printed(t, r, ChildTowards(p)(q), q) then 1 else 0
    decreases Subtree(t, p), 0, |kids|
  {
    hide Reached, Shadowed, IsBelow, Ordered, PrintFrom;
    if kids != [] {
      var c := kids[0];
      ChildSubtree(t, p, c);
      var ci := childIndent + (if |kids| == 1 then "    " else "|   ");
      PrintExact(t, c, childIndent + "|-> ", ci, r, q);
      ReachedBelow(t, r, c, q);
      PrintKidsExact(t, p, kids[1..], childIndent, r, q);
      NodesOfConcat(PrintFrom(t, c, childIndent + "|-> ", ci, r), PrintKids(t, p, kids[1..], childIndent, r));
      assert c <= q ==> p <= q && p != q && ChildTowards(p)(q) == c;
      assert c !in kids[1..];
      assert forall x :: x in kids <==> x == c || x in kids[1..];
    }
  }

  // ---- Cutting whole subtrees hides nothing ----

  /** The largest time over ranks never grows on the way down. */
  ghost predicate MaxFalls(t: Tree) {
    forall p {:trigger Parent(p)} :: p in t && p != [] && Parent(p) in t ==>
      t[p].maxRuntime <= t[Parent(p)].maxRuntime && t[p].commSize == t[Parent(p)].commSize
  }

  ghost predicate NoTies(t: Tree) {
    forall a, b :: a in t && b in t && a != [] && b != [] && Parent(a) == Parent(b) && Tied(t, a, b) ==> a == b
  }

  lemma QuotientMonotone(x: real, y: real, d: real)
    requires x <= y && d > 0.0
    ensures x / d * 100.0 <= y / d * 100.0
  {
  }

  lemma BelowMonotone(r: Settings, low: Data, high: Data)
    requires low.maxRuntime <= high.maxRuntime && low.commSize == high.commSize && 0 <= r.treeTime
    ensures IsBelow(r, high) ==> IsBelow(r, low)
  {
    assert low.maxRuntime * low.commSize <= high.maxRuntime * high.commSize;
    if r.treeTime != 0 {
      var x, y := (low.maxRuntime * low.commSize) as real, (high.maxRuntime * high.commSize) as real;
      QuotientMonotone(x, y, r.treeTime as real);
    }
  }

  /** A node at or over the threshold hangs below nodes at or over it. */
  lemma {:induction false} AboveIsAbove(t: Tree, r: Settings, p: Path, q: Path)
    requires WellFormed(t) && MaxFalls(t) && 0 <= r.treeTime
    requires p <= q && q in t && !IsBelow(r, t[q])
    ensures p in t && !IsBelow(r, t[p])
    decreases |q|
  {
    if p != q {
      assert Parent(q) in t;
      BelowMonotone(r, t[q], t[Parent(q)]);
      AboveIsAbove(t, r, p, Parent(q));
    }
  }

  /** Cutting hides no node that is itself at or over the threshold; only a tie can. */
  lemma PruningSound(t: Tree, r: Settings, q: Path)
    requires WellFormed(t) && MaxFalls(t) && 0 <= r.treeTime
    ensures Printed(t, r, [], q) <==>
      q in t && !IsBelow(r, t[q]) && KeyOf(q).name != ""
      && forall s :: Between([], s, q) && s != [] && s in t ==> !Shadowed(t, Children(t, Parent(s)), s)
  {
    hide Shadowed, IsBelow;
    if q in t && !IsBelow(r, t[q]) {
      forall s | Between([], s, q) ensures s in t && !IsBelow(r, t[s]) {
        AboveIsAbove(t, r, s, q);
      }
    }
    if Reached(t, r, [], q) {
      assert Between([], q, q);
      forall s | Between([], s, q) && s != [] ensures !Shadowed(t, Children(t, Parent(s)), s) {
        assert !Cut(t, r, [], s);
      }
    }
  }

  /** A named node at or over the threshold. */
  predicate ShouldShow(t: Tree, r: Settings, q: Path) {
    q in t && !IsBelow(r, t[q]) && KeyOf(q).name != ""
  }

  /** A tie keeps the node out of the report: it, or a node above it, is shadowed. */
  ghost predicate Hidden(t: Tree, q: Path) {
    exists s :: Between([], s, q) && s != [] && s in t && Shadowed(t, Children(t, Parent(s)), s)
  }

  /** The report is exactly the named nodes at or over the threshold that no tie hides, each printed once. */
  lemma OnlyTiesHide(t: Tree, r: Settings, q: Path)
    requires WellFormed(t) && MaxFalls(t) && 0 <= r.treeTime
    ensures multiset(Nodes(PrintFrom(t, [], "", "", r)))[q] == if ShouldShow(t, r, q) && !Hidden(t, q) then 1 else 0
  {
    hide IsBelow, PrintFrom, Shadowed;
    PrintExact(t, [], "", "", r, q);
    PruningSound(t, r, q);
  }

  lemma NoTiesNoneHidden(t: Tree, q: Path)
    requires NoTies(t)
    ensures !Hidden(t, q)
  {
    hide Tied;
    forall s | s in t && s != [] ensures !Shadowed(t, Children(t, Parent(s)), s) {
    }
  }

  /** Without ties, the report is exactly the named nodes at or over the threshold, each printed once. */
  lemma ReportExact(t: Tree, r: Settings, q: Path)
    requires WellFormed(t) && MaxFalls(t) && NoTies(t) && 0 <= r.treeTime
    ensures multiset(Nodes(PrintFrom(t, [], "", "", r)))[q] == if ShouldShow(t, r, q) then 1 else 0
  {
    hide ShouldShow, PrintFrom, NoTies, Hidden;
    OnlyTiesHide(t, r, q);
    NoTiesNoneHidden(t, q);
  }

  /** A sibling that ties with one of lower kind is hidden. */
  lemma TiedIsHidden(t: Tree, a: Path, b: Path)
    requires a in t && b in t && a != [] && b != [] && Parent(a) == Parent(b)
    requires Tied(t, a, b) && Rank(KeyOf(a).kind) < Rank(KeyOf(b).kind)
    ensures Hidden(t, b)
  {
    assert Between([], b, b) && a in Children(t, Parent(b));
    assert Shadowed(t, Children(t, Parent(b)), b);
  }

  // ---- The order of the lines ----

  /** Printed before: a node above, or one on a branch that took longer, or as long under a smaller name. */
  ghost predicate Precedes(t: Tree, a: Path, b: Path) {
    || (a <= b && a != b)
    || exists n :: Parts(t, a, b, n)
  }

  /** The two part ways below their common ancestor at depth `n`, `a` onto the sooner branch. */
  ghost predicate Parts(t: Tree, a: Path, b: Path, n: int) {
    0 <= n < |a| && n < |b| && a[..n] == b[..n] && a[n] != b[n] && Sooner(t, a[..n + 1], b[..n + 1])
  }

  ghost predicate InOrder(t: Tree, lines: seq<Line>) {
    forall i, j :: 0 <= i < j < |lines| ==> Precedes(t, lines[i].node, lines[j].node)
  }

  ghost predicate AllBelow(p: Path, lines: seq<Line>) {
    forall i :: 0 <= i < |lines| ==> p <= lines[i].node
  }

  /** The order of any two lines: a node before what is below it, and siblings, with all that is below them, longest
      first and by name where they took equally long. */
  lemma {:induction false} PrintOrder(t: Tree, p: Path, indent: string, childIndent: string, r: Settings)
    requires p in t
    ensures InOrder(t, PrintFrom(t, p, indent, childIndent, r))
    ensures AllBelow(p, PrintFrom(t, p, indent, childIndent, r))
    decreases Subtree(t, p), 1, 0
  {
    hide IsBelow, Ordered, ByTime, Sooner, Parts, PrintKids;
    if !IsBelow(r, t[p]) {
      ChildrenAreSiblings(t, p);
      OrderedMembers(t, Children(t, p));
      PrintKidsOrder(t, p, Ordered(t, Children(t, p)), childIndent, r);
    }
  }

  /** Every line shows a node below one of these children of `p`. */
  ghost predicate BelowSome(p: Path, kids: seq<Path>, lines: seq<Line>) {
    forall i :: 0 <= i < |lines| ==>
      p <= lines[i].node && lines[i].node != p && ChildTowards(p)(lines[i].node) in kids
  }

  lemma {:induction false} PrintKidsOrder(t: Tree, p: Path, kids: seq<Path>, childIndent: string, r: Settings)
    requires p in t && (forall c :: c in kids ==> c in Children(t, p)) && StrictlyByTime(t, kids)
    ensures InOrder(t, PrintKids(t, p, kids, childIndent, r))
    ensures BelowSome(p, kids, PrintKids(t, p, kids, childIndent, r))
    decreases Subtree(t, p), 0, |kids|
  {
    hide IsBelow, PrintFrom, ByTime, Precedes;
    if kids != [] {
      var c := kids[0];
      ChildSubtree(t, p, c);
      var ci := childIndent + (if |kids| == 1 then "    " else "|   ");
      var first, rest := PrintFrom(t, c, childIndent + "|-> ", ci, r), PrintKids(t, p, kids[1..], childIndent, r);
      PrintOrder(t, c, childIndent + "|-> ", ci, r);
      PrintKidsOrder(t, p, kids[1..], childIndent, r);
      ConcatOrder(t, p, kids, first, rest);
    }
  }

  lemma ConcatOrder(t: Tree, p: Path, kids: seq<Path>, first: seq<Line>, rest: seq<Line>)
    requires kids != [] && (forall c :: c in kids ==> c in Children(t, p)) && StrictlyByTime(t, kids)
    requires InOrder(t, first) && AllBelow(kids[0], first)
    requires InOrder(t, rest) && BelowSome(p, kids[1..], rest)
    ensures InOrder(t, first + rest) && BelowSome(p, kids, first + rest)
  {
    hide ByTime, Precedes, StrictlyByTime;
    var lines := first + rest;
    assert kids[0] in Children(t, p);
    forall i | 0 <= i < |lines|
      ensures p <= lines[i].node && lines[i].node != p && ChildTowards(p)(lines[i].node) in kids
    {
      if i < |first| {
        assert ChildTowards(p)(lines[i].node) == kids[0];
      } else {
        assert ChildTowards(p)(lines[i].node) in kids[1..];
      }
    }
    forall i, j | 0 <= i < j < |lines| ensures Precedes(t, lines[i].node, lines[j].node) {
      if i < |first| <= j {
        assert lines[j] == rest[j - |first|];
        AcrossKids(t, p, kids, lines[i].node, lines[j].node);
      }
    }
  }

  /** What is below an earlier child comes before what is below a later one. */
  lemma AcrossKids(t: Tree, p: Path, kids: seq<Path>, a: Path, b: Path)
    requires kids != [] && (forall x :: x in kids ==> x in Children(t, p)) && StrictlyByTime(t, kids)
    requires kids[0] <= a && p <= b && b != p && ChildTowards(p)(b) in kids[1..]
    ensures Precedes(t, a, b)
  {
    hide ByTime, Sooner;
    var c, d := kids[0], ChildTowards(p)(b);
    var j :| 0 <= j < |kids[1..]| && kids[1..][j] == d;
    assert ByTime(t, kids[0], kids[j + 1]);
    ByTimeIs(t, c, d);
    ByTimeTotal(t, c, d);
    ByTimeTotal(t, c, c);
    assert c in Children(t, p);
    assert c == a[..|p| + 1] && d == b[..|p| + 1] && Parent(c) == p;
    assert a[..|p|] == c[..|p|] == p == b[..|p|];
    assert c == p + [a[|p|]] && d == p + [b[|p|]];
    assert Parts(t, a, b, |p|);
  }

  // ---- The indentation of the lines ----

  /** No child that the report visits comes after `c` among the children of its parent. */
  ghost predicate LastChild(t: Tree, c: Path)
    requires c != []
  {
    var siblings := Children(t, Parent(c));
    forall d :: d in siblings && !Shadowed(t, siblings, d) ==> !Sooner(t, c, d)
  }

  /** What stands before the lines of a node's children: a rail for every level at which more is to come. */
  ghost function Rails(t: Tree, p: Path): string {
    if p == [] then "" else Rails(t, Parent(p)) + (if LastChild(t, p) then "    " else "|   ")
  }

  ghost function IndentOf(t: Tree, p: Path): string {
    if p == [] then "" else Rails(t, Parent(p)) + "|-> "
  }

  ghost predicate Indented(t: Tree, lines: seq<Line>) {
    forall i :: 0 <= i < |lines| ==> lines[i].indent == IndentOf(t, lines[i].node)
  }

  /** Every line is indented by the rails of the nodes above it. */
  lemma {:induction false} PrintIndents(t: Tree, p: Path, r: Settings)
    requires p in t
    ensures Indented(t, PrintFrom(t, p, IndentOf(t, p), Rails(t, p), r))
    decreases Subtree(t, p), 1, 0
  {
    hide IsBelow, Ordered, ByTime, Rails, IndentOf, PrintKids;
    if !IsBelow(r, t[p]) {
      ChildrenAreSiblings(t, p);
      OrderedMembers(t, Children(t, p));
      assert Ordered(t, Children(t, p))[0..] == Ordered(t, Children(t, p));
      PrintKidsIndents(t, p, 0, r);
    }
  }

  lemma {:induction false} PrintKidsIndents(t: Tree, p: Path, n: nat, r: Settings)
    requires p in t && Siblings(Children(t, p)) && n <= |Ordered(t, Children(t, p))|
    requires forall c :: c in Ordered(t, Children(t, p)) ==> c in Children(t, p)
    ensures Indented(t, PrintKids(t, p, Ordered(t, Children(t, p))[n..], Rails(t, p), r))
    decreases Subtree(t, p), 0, |Ordered(t, Children(t, p))| - n
  {
    hide IsBelow, PrintFrom, Ordered, ByTime, LastChild;
    var all := Ordered(t, Children(t, p));
    var kids := all[n..];
    if kids != [] {
      var c := kids[0];
      ChildSubtree(t, p, c);
      LastIsLast(t, p, n);
      assert c in Children(t, p);
      PrintIndents(t, c, r);
      assert kids[1..] == all[n + 1..];
      PrintKidsIndents(t, p, n + 1, r);
    }
  }

  lemma LastIsLast(t: Tree, p: Path, n: nat)
    requires Siblings(Children(t, p)) && n < |Ordered(t, Children(t, p))|
    ensures var c := Ordered(t, Children(t, p))[n];
      c in Children(t, p) && c != [] && (LastChild(t, c) <==> n + 1 == |Ordered(t, Children(t, p))|)
  {
    hide Ordered, ByTime, Sooner, Shadowed;
    var all := Ordered(t, Children(t, p));
    var c := all[n];
    OrderedMembers(t, Children(t, p));
    assert c in Children(t, p);
    forall d ensures ByTime(t, c, d) <==> Sooner(t, c, d) { ByTimeIs(t, c, d); }
    if n + 1 < |all| {
      assert ByTime(t, c, all[n + 1]) && all[n + 1] in Children(t, p);
    } else {
      forall d | d in all ensures !ByTime(t, c, d) {
        var i :| 0 <= i < |all| && all[i] == d;
        assert i < n ==> ByTime(t, d, c);
        ByTimeTotal(t, c, d);
        ByTimeTotal(t, c, c);
      }
    }
  }

  // ---- The threshold ----

  /** A part of the tree's time, in percent, is at or over the threshold. */
  ghost predicate Reaches(part: int, whole: int, threshold: real) {
    threshold * whole as real <= 100.0 * part as real
  }

  /** A node is cut exactly if the largest time over ranks, counted for all of them, is less than that percentage of
      the tree's time; in a tree without time nothing is cut. */
  lemma ThresholdIs(r: Settings, d: Data)
    requires 0 <= r.treeTime && 0 <= d.maxRuntime
    ensures IsBelow(r, d) <==> !Reaches(d.maxRuntime * d.commSize, r.treeTime, r.threshold)
  {
    var part, whole := d.maxRuntime * d.commSize, r.treeTime;
    if whole == 0 {
      assert 0 <= part;
    } else {
      PercentBelow(part as real, whole as real, r.threshold);
    }
  }

  lemma PercentBelow(part: real, whole: real, threshold: real)
    requires whole > 0.0
    ensures part / whole * 100.0 < threshold <==> 100.0 * part < threshold * whole
  {
    var percent := part / whole * 100.0;
    assert part / whole * whole == part;
    assert percent * whole == 100.0 * part;
    if percent < threshold {
      assert percent * whole < threshold * whole;
    } else {
      assert threshold * whole <= percent * whole;
    }
  }
}
