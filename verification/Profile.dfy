/** The event machine of one rank, on values: what a stream of begin and end events does to the call tree. */
module Profile {
  import opened CallTree

  /** Region pops and deep-copy ends are not checked; kernel ends carry the id their begin returned. */
  datatype Event =
    | Enter(key: Key, time: int)
    | Leave(time: int)
    | LeaveKernel(id: Path, time: int)

  /** `Detached`: the root frame itself was popped and the frame pointer is null.
      `Crashed`: a null frame pointer was followed. */
  datatype State =
    | Running(tree: Tree, frame: Path)
    | Detached(tree: Tree)
    | Aborted
    | Crashed

  function Begun(d: Data, kind: StackKind, now: int): Data {
    d.(numberOfCalls := d.numberOfCalls + 1,
       totalNumberOfKernelCalls := d.totalNumberOfKernelCalls + if kind == Region then 0 else 1,
       startTime := now)
  }

  function Ended(d: Data, now: int): Data {
    d.(totalRuntime := d.totalRuntime + (now - d.startTime))
  }

  function Initial(now: int): State {
    Running(map[[] := Begun(NEW_NODE, Region, now)], [])
  }

  function BeginFrame(t: Tree, p: Path, k: Key, now: int): Tree
    requires p in t
  {
    var grown := EnsureChild(t, p, k);
    grown[p + [k] := Begun(grown[p + [k]], k.kind, now)]
  }

  function EndFrame(t: Tree, p: Path, now: int): State
    requires p in t
  {
    var ended := t[p := Ended(t[p], now)];
    if p == [] then Detached(ended) else Running(ended, Parent(p))
  }

  function Step(s: State, e: Event): State
    requires s.Running? ==> s.frame in s.tree
  {
    match s
    case Running(t, p) =>
      (match e
       case Enter(k, now) => Running(BeginFrame(t, p, k, now), p + [k])
       case Leave(now) => EndFrame(t, p, now)
       case LeaveKernel(id, now) => if id != p then Aborted else EndFrame(t, p, now))
    case Detached(_) => Crashed
    case Aborted => Aborted
    case Crashed => Crashed
  }

  ghost predicate Valid(s: State) {
    s.Running? ==> WellFormed(s.tree) && s.frame in s.tree
  }

  lemma StepValid(s: State, e: Event)
    requires Valid(s)
    ensures Valid(Step(s, e))
  {
    if s.Running? {
      if e.Enter? {
        var grown := BeginFrame(s.tree, s.frame, e.key, e.time);
        ParentOfChild(s.frame, e.key);
        assert WellFormed(grown);
      } else if s.frame != [] && !(e.LeaveKernel? && e.id != s.frame) {
        assert Parent(s.frame) in s.tree;
      }
    }
  }

  ghost function Run(start: int, es: seq<Event>): (s: State)
    ensures Valid(s)
  {
    if es == [] then Initial(start) else
      var before := Run(start, es[..|es| - 1]);
      StepValid(before, es[|es| - 1]);
      Step(before, es[|es| - 1])
  }

  // ---- The reference: an ordinary stack of activations, each with its own begin time ----

  datatype Activation = Activation(key: Key, begin: int)

  function Keys(open: seq<Activation>): (p: Path)
    ensures |p| == |open|
  {
    seq(|open|, i requires 0 <= i < |open| => open[i].key)
  }

  /** The path of the `i` outermost activations. */
  function Upto(open: seq<Activation>, i: nat): (p: Path)
    requires i <= |open|
    ensures |p| == i && (i == |open| ==> p == Keys(open))
  {
    assert open[..|open|] == open;
    Keys(open[..i])
  }

  /** The activations open after `es`. */
  ghost function Open(es: seq<Event>): seq<Activation> {
    if es == [] then [] else
      var open, e := Open(es[..|es| - 1]), es[|es| - 1];
      if e.Enter? then open + [Activation(e.key, e.time)]
      else if open == [] then []
      else open[..|open| - 1]
  }

  /** Every end closes an open activation, and a kernel end names the innermost one. */
  ghost predicate WellNested(es: seq<Event>) {
    es == [] ||
    var open, e := Open(es[..|es| - 1]), es[|es| - 1];
    && WellNested(es[..|es| - 1])
    && (e.Enter? || (open != [] && (e.LeaveKernel? ==> e.id == Keys(open))))
  }

  /** How many activations began at path `p`. */
  ghost function Begins(es: seq<Event>, p: Path): nat {
    if es == [] then 0 else
      var pre, e := es[..|es| - 1], es[|es| - 1];
      Begins(pre, p) + if e.Enter? && Keys(Open(pre)) + [e.key] == p then 1 else 0
  }

  /** The summed durations of the finished activations at path `p`. */
  ghost function Elapsed(es: seq<Event>, p: Path): int {
    if es == [] then 0 else
      var pre, e := es[..|es| - 1], es[|es| - 1];
      var open := Open(pre);
      Elapsed(pre, p) + if !e.Enter? && open != [] && Keys(open) == p then e.time - open[|open| - 1].begin else 0
  }

  /** The run state says what the reference stack says. */
  ghost predicate Refines(s: State, start: int, es: seq<Event>) {
    && s.Running?
    && s.frame == Keys(Open(es))
    && CountsAgree(s.tree, es)
    && StartsAgree(s.tree, start, Open(es))
  }

  ghost predicate CountsAgree(t: Tree, es: seq<Event>) {
    forall p :: CountAgrees(t, es, p)
  }

  ghost predicate CountAgrees(t: Tree, es: seq<Event>, p: Path) {
    (p in t <==> p == [] || Begins(es, p) > 0) && (p in t ==> AgreesAt(t[p], p, es))
  }

  ghost predicate AgreesAt(d: Data, p: Path, es: seq<Event>) {
    && d.numberOfCalls == Begins(es, p) + (if p == [] then 1 else 0)
    && d.totalRuntime == Elapsed(es, p)
    && d.totalNumberOfKernelCalls == (if KeyOf(p).kind == Region then 0 else Begins(es, p))
    && d.totalKokkosRuntime == 0 && d.commSize == 1
  }

  /** The one start time a node holds is that of the activation open at its path. */
  ghost predicate StartsAgree(t: Tree, start: int, open: seq<Activation>) {
    && [] in t && t[[]].startTime == start
    && forall i :: 1 <= i <= |open| ==> Upto(open, i) in t && t[Upto(open, i)].startTime == open[i - 1].begin
  }

  /** A run keeps going exactly while its events are well nested, and the tree then holds, at every path,
      the number of begins and the summed durations of the reference stack's activations. */
  lemma {:induction false} RunRefines(start: int, es: seq<Event>)
    ensures Run(start, es).Running? <==> WellNested(es)
    ensures WellNested(es) ==> Refines(Run(start, es), start, es)
  {
    if es == [] {
      assert Keys(Open(es)) == [];
    } else {
      var pre, e := es[..|es| - 1], es[|es| - 1];
      RunRefines(start, pre);
      if WellNested(es) {
        if e.Enter? {
          EnterRefines(Run(start, pre), start, es);
        } else {
          LeaveRefines(Run(start, pre), start, es);
        }
      }
    }
  }

  /** The event that breaks the nesting: a kernel end that does not name the current frame aborts the program; any
      other end pops the root itself, and the next event then follows a null pointer. Neither is recovered from. */
  lemma RunFails(start: int, es: seq<Event>, e: Event, next: Event)
    requires WellNested(es) && !WellNested(es + [e])
    ensures var s, s' := Run(start, es + [e]), Run(start, es + [e] + [next]);
      if e.LeaveKernel? && e.id != Keys(Open(es)) then s.Aborted? && s'.Aborted?
      else Open(es) == [] && s.Detached? && s'.Crashed?
  {
    hide Refines, CountsAgree;
    FrameIs(start, es);
    assert (es + [e])[..|es|] == es && (es + [e] + [next])[..|es| + 1] == es + [e];
    if Open(es) != [] {
      assert Keys(Open(es)) != [];
    }
  }

  lemma FrameIs(start: int, es: seq<Event>)
    requires WellNested(es)
    ensures Run(start, es).Running? && Run(start, es).frame == Keys(Open(es))
  {
    RunRefines(start, es);
  }

  lemma EnterRefines(s: State, start: int, es: seq<Event>)
    requires es != [] && es[|es| - 1].Enter? && Refines(s, start, es[..|es| - 1]) && s.frame in s.tree
    ensures Refines(Step(s, es[|es| - 1]), start, es)
  {
    hide CountsAgree, StartsAgree, BeginFrame;
    var pre, e := es[..|es| - 1], es[|es| - 1];
    KeysGrow(Open(pre), Activation(e.key, e.time));
    EnterCounts(s.tree, es);
    EnterStarts(s.tree, start, Open(pre), Activation(e.key, e.time));
  }

  lemma LeaveRefines(s: State, start: int, es: seq<Event>)
    requires es != [] && !es[|es| - 1].Enter? && Refines(s, start, es[..|es| - 1]) && s.frame in s.tree
    requires WellNested(es)
    ensures Refines(Step(s, es[|es| - 1]), start, es)
  {
    hide CountsAgree;
    var pre, e := es[..|es| - 1], es[|es| - 1];
    KeysShrink(Open(pre));
    assert Upto(Open(pre), |Open(pre)|) in s.tree;
    LeaveCounts(s.tree, es);
    LeaveStarts(s.tree, start, Open(pre), e.time);
  }

  lemma KeysGrow(open: seq<Activation>, a: Activation)
    ensures Keys(open + [a]) == Keys(open) + [a.key]
  {
  }

  lemma KeysShrink(open: seq<Activation>)
    requires open != []
    ensures Keys(open) != [] && Keys(open[..|open| - 1]) == Parent(Keys(open))
  {
  }

  lemma EnterCounts(t: Tree, es: seq<Event>)
    requires es != [] && es[|es| - 1].Enter?
    requires CountsAgree(t, es[..|es| - 1]) && Keys(Open(es[..|es| - 1])) in t
    ensures CountsAgree(BeginFrame(t, Keys(Open(es[..|es| - 1])), es[|es| - 1].key, es[|es| - 1].time), es)
  {
    hide CountAgrees;
    var pre, e := es[..|es| - 1], es[|es| - 1];
    forall p ensures CountAgrees(BeginFrame(t, Keys(Open(pre)), e.key, e.time), es, p) {
      assert CountAgrees(t, pre, p);
      EnterCountAt(t, es, p);
    }
  }

  lemma EnterCountAt(t: Tree, es: seq<Event>, p: Path)
    requires es != [] && es[|es| - 1].Enter?
    requires CountAgrees(t, es[..|es| - 1], p) && Keys(Open(es[..|es| - 1])) in t
    ensures CountAgrees(BeginFrame(t, Keys(Open(es[..|es| - 1])), es[|es| - 1].key, es[|es| - 1].time), es, p)
  {
    hide Open;
    var pre, e := es[..|es| - 1], es[|es| - 1];
    ParentOfChild(Keys(Open(pre)), e.key);
    if p == Keys(Open(pre)) + [e.key] && p !in t {
      NothingElapsed(pre, p);
    }
  }

  lemma LeaveCounts(t: Tree, es: seq<Event>)
    requires es != [] && !es[|es| - 1].Enter? && Open(es[..|es| - 1]) != []
    requires CountsAgree(t, es[..|es| - 1]) && Keys(Open(es[..|es| - 1])) in t
    requires t[Keys(Open(es[..|es| - 1]))].startTime == Open(es[..|es| - 1])[|Open(es[..|es| - 1])| - 1].begin
    ensures var p := Keys(Open(es[..|es| - 1])); CountsAgree(t[p := Ended(t[p], es[|es| - 1].time)], es)
  {
    hide CountAgrees;
    var pre, e := es[..|es| - 1], es[|es| - 1];
    var q := Keys(Open(pre));
    var t' := t[q := Ended(t[q], e.time)];
    forall p ensures CountAgrees(t', es, p) {
      assert CountAgrees(t, pre, p);
      LeaveCountAt(t, es, p);
    }
  }

  lemma LeaveCountAt(t: Tree, es: seq<Event>, p: Path)
    requires es != [] && !es[|es| - 1].Enter? && Open(es[..|es| - 1]) != []
    requires CountAgrees(t, es[..|es| - 1], p) && Keys(Open(es[..|es| - 1])) in t
    requires t[Keys(Open(es[..|es| - 1]))].startTime == Open(es[..|es| - 1])[|Open(es[..|es| - 1])| - 1].begin
    ensures var q := Keys(Open(es[..|es| - 1])); CountAgrees(t[q := Ended(t[q], es[|es| - 1].time)], es, p)
  {
    hide Open;
  }

  lemma EnterStarts(t: Tree, start: int, open: seq<Activation>, a: Activation)
    requires StartsAgree(t, start, open) && Keys(open) in t
    ensures StartsAgree(BeginFrame(t, Keys(open), a.key, a.begin), start, open + [a])
  {
    KeysGrow(open, a);
    forall i | 1 <= i <= |open| ensures Upto(open + [a], i) == Upto(open, i) {
      assert (open + [a])[..i] == open[..i];
    }
  }

  lemma LeaveStarts(t: Tree, start: int, open: seq<Activation>, now: int)
    requires StartsAgree(t, start, open) && open != [] && Keys(open) in t
    ensures StartsAgree(t[Keys(open) := Ended(t[Keys(open)], now)], start, open[..|open| - 1])
  {
    var closed := open[..|open| - 1];
    forall i | 1 <= i <= |closed| ensures Upto(closed, i) in t && t[Upto(closed, i)].startTime == closed[i - 1].begin {
      assert closed[..i] == open[..i];
      assert Upto(closed, i) == Upto(open, i);
    }
  }

  /** A path that was never entered was never left. */
  lemma {:induction false} NothingElapsed(es: seq<Event>, p: Path)
    requires p != [] && Begins(es, p) == 0
    ensures Elapsed(es, p) == 0
    ensures forall i :: 1 <= i <= |Open(es)| ==> Upto(Open(es), i) != p
  {
    if es != [] {
      var pre, e := es[..|es| - 1], es[|es| - 1];
      var open := Open(pre);
      NothingElapsed(pre, p);
      assert open != [] ==> Upto(open, |open|) != p;
      if e.Enter? {
        KeysGrow(open, Activation(e.key, e.time));
      }
      forall i | 1 <= i <= |Open(es)| ensures Upto(Open(es), i) != p {
        if i <= |open| {
          assert Open(es)[..i] == open[..i];
          assert Upto(Open(es), i) == Upto(open, i);
        }
      }
    }
  }
}
