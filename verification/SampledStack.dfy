/** The sampler in front of the space-time-stack: the child only sees the sampled kernels, and accepts them. */
module SampledStack {
  import opened CallTree
  import P = Profile
  import opened Sampling

  /** A kernel starts or stops in the application. `draw` is what `rand()` returns there. */
  datatype Call =
    | StartKernel(construct: Construct, name: string, draw: nat, time: int)
    | StopKernel(construct: Construct, kID: nat, time: int)

  function KindOf(c: Construct): StackKind {
    match c
    case ForLoop => For
    case ScanLoop => Scan
    case ReduceLoop => Reduce
  }

  /** The sampler and the profiler behind it. The profiler's kernel id is the frame it has just begun. */
  datatype Both = Both(sampler: Sampler<Path>, child: P.State)

  ghost predicate Valid(b: Both) {
    P.Valid(b.child)
  }

  function ChildBegun(b: Both, c: Call): P.State
    requires c.StartKernel? && (b.child.Running? ==> b.child.frame in b.child.tree)
  {
    P.Step(b.child, P.Enter(Key(KindOf(c.construct), c.name), c.time))
  }

  function Step(setup: Setup, b: Both, c: Call): Both
    requires setup.skip > 0 && (b.child.Running? ==> b.child.frame in b.child.tree)
  {
    match c
    case StartKernel(construct, name, draw, time) =>
      if Forwards(setup, b.sampler, construct, draw) then
        var child := ChildBegun(b, c);
        var id := if child.Running? then child.frame else [];
        Both(Sampling.Step(setup, b.sampler, Begin(construct, name, draw, id)), child)
      else Both(Sampling.Step(setup, b.sampler, Begin(construct, name, draw, [])), b.child)
    case StopKernel(construct, kID, time) =>
      Both(Sampling.Step(setup, b.sampler, End(construct, kID)),
           if construct in setup.ends && kID in b.sampler.infokIDSample then
             P.Step(b.child, P.LeaveKernel(b.sampler.infokIDSample[kID], time))
           else b.child)
  }

  ghost function Run(setup: Setup, start: int, cs: seq<Call>): (b: Both)
    requires setup.skip > 0
    ensures Valid(b)
  {
    if cs == [] then Both(Fresh(), P.Initial(start)) else
      var before := Run(setup, start, cs[..|cs| - 1]);
      StepValid(setup, before, cs[|cs| - 1]);
      Step(setup, before, cs[|cs| - 1])
  }

  lemma StepValid(setup: Setup, b: Both, c: Call)
    requires setup.skip > 0 && Valid(b)
    ensures Valid(Step(setup, b, c))
  {
    if c.StartKernel? {
      P.StepValid(b.child, P.Enter(Key(KindOf(c.construct), c.name), c.time));
    } else if c.kID in b.sampler.infokIDSample {
      P.StepValid(b.child, P.LeaveKernel(b.sampler.infokIDSample[c.kID], c.time));
    }
  }

  // ---- The application's own stack ----

  /** A kernel that is running: its id, its key, and whether it was forwarded. */
  datatype Active = Active(kID: nat, key: Key, forwarded: bool)

  ghost function ActiveOf(setup: Setup, b: Both, c: Call): Active
    requires setup.skip > 0 && c.StartKernel?
  {
    Active(b.sampler.uniqID, Key(KindOf(c.construct), c.name), Forwards(setup, b.sampler, c.construct, c.draw))
  }

  ghost function Stack(setup: Setup, start: int, cs: seq<Call>): seq<Active>
    requires setup.skip > 0
  {
    if cs == [] then [] else
      var pre, c := cs[..|cs| - 1], cs[|cs| - 1];
      var stack, b := Stack(setup, start, pre), Run(setup, start, pre);
      if c.StartKernel? then
        stack + [ActiveOf(setup, b, c)]
      else if stack == [] then [] else stack[..|stack| - 1]
  }

  /** Every stop is of the kernel started last and still running. */
  ghost predicate WellNested(setup: Setup, start: int, cs: seq<Call>)
    requires setup.skip > 0
  {
    cs == [] ||
    var stack, c := Stack(setup, start, cs[..|cs| - 1]), cs[|cs| - 1];
    WellNested(setup, start, cs[..|cs| - 1]) && (c.StopKernel? ==> stack != [] && stack[|stack| - 1].kID == c.kID)
  }

  /** The path of the forwarded kernels on the stack. */
  ghost function ForwardedPath(stack: seq<Active>): Path {
    if stack == [] then [] else
      var a := stack[|stack| - 1];
      ForwardedPath(stack[..|stack| - 1]) + if a.forwarded then [a.key] else []
  }

  /** The child stands at the frame of the innermost forwarded kernel, and the map knows every running
      forwarded kernel by the child's frame for it, and no other kernel. */
  ghost predicate InStep(b: Both, stack: seq<Active>) {
    && b.child.Running? && b.child.frame == ForwardedPath(stack)
    && (forall i :: 0 <= i < |stack| ==> stack[i].kID < b.sampler.uniqID)
    && (forall i, j :: 0 <= i < j < |stack| ==> stack[i].kID != stack[j].kID)
    && (forall i :: 0 <= i < |stack| ==> Known(b.sampler.infokIDSample, stack, i))
    && (forall k :: k in b.sampler.infokIDSample ==> exists i :: 0 <= i < |stack| && stack[i].kID == k)
  }

  ghost predicate Known(m: map<nat, Path>, stack: seq<Active>, i: nat)
    requires i < |stack|
  {
    if stack[i].forwarded then stack[i].kID in m && m[stack[i].kID] == ForwardedPath(stack[..i + 1])
    else stack[i].kID !in m
  }

  lemma StartInStep(setup: Setup, b: Both, stack: seq<Active>, c: Call)
    requires setup.skip > 0 && Valid(b) && InStep(b, stack) && c.StartKernel?
    ensures InStep(Step(setup, b, c), stack + [ActiveOf(setup, b, c)]) && Step(setup, b, c).child.Running?
    ensures Forwards(setup, b.sampler, c.construct, c.draw) ==>
      var frame := Step(setup, b, c).child.frame;
      && frame != [] && Parent(frame) == b.child.frame && Last(frame).name == c.name
      && Last(frame).kind == match c.construct case ForLoop => For case ScanLoop => Scan case ReduceLoop => Reduce
  {
    hide Forwards;
    var a := ActiveOf(setup, b, c);
    var stack', b' := stack + [a], Step(setup, b, c);
    assert stack'[..|stack|] == stack && stack'[..|stack| + 1] == stack';
    forall i | 0 <= i < |stack'| ensures Known(b'.sampler.infokIDSample, stack', i) {
      if i < |stack| {
        assert Known(b.sampler.infokIDSample, stack, i);
        assert stack'[..i + 1] == stack[..i + 1];
      }
    }
    forall k | k in b'.sampler.infokIDSample ensures exists i :: 0 <= i < |stack'| && stack'[i].kID == k {
      if k in b.sampler.infokIDSample {
        var i :| 0 <= i < |stack| && stack[i].kID == k;
        assert stack'[i].kID == k;
      } else {
        assert stack'[|stack|].kID == k;
      }
    }
  }

  lemma StopInStep(setup: Setup, b: Both, stack: seq<Active>, c: Call)
    requires setup.skip > 0 && c.StopKernel? && c.construct in setup.ends && Valid(b) && InStep(b, stack)
    requires stack != [] && stack[|stack| - 1].kID == c.kID
    ensures InStep(Step(setup, b, c), stack[..|stack| - 1])
  {
    var n := |stack| - 1;
    var stack', b' := stack[..n], Step(setup, b, c);
    assert Known(b.sampler.infokIDSample, stack, n) && stack[..n + 1] == stack;
    forall i | 0 <= i < n ensures Known(b'.sampler.infokIDSample, stack', i) {
      assert Known(b.sampler.infokIDSample, stack, i);
      assert stack'[..i + 1] == stack[..i + 1];
    }
    forall k | k in b'.sampler.infokIDSample ensures exists i :: 0 <= i < |stack'| && stack'[i].kID == k {
      var i :| 0 <= i < |stack| && stack[i].kID == k;
      assert i < n;
      assert stack'[i].kID == k;
    }
  }

  /** If the application's kernels are well nested, so is what the child sees: the space-time-stack behind the
      sampler never aborts at a kernel's end, and its frame is always the path of the sampled kernels running. */
  lemma {:induction false} ChildNeverAborts(setup: Setup, start: int, cs: seq<Call>)
    requires setup.skip > 0 && (forall c: Construct :: c in setup.ends) && WellNested(setup, start, cs)
    ensures Run(setup, start, cs).child.Running?
    ensures Run(setup, start, cs).child.frame == ForwardedPath(Stack(setup, start, cs))
    ensures InStep(Run(setup, start, cs), Stack(setup, start, cs))
  {
    hide Forwards, Step;
    if cs == [] {
      NothingRunning(setup, start);
    } else {
      var pre, c := cs[..|cs| - 1], cs[|cs| - 1];
      ChildNeverAborts(setup, start, pre);
      if c.StartKernel? {
        StartInStep(setup, Run(setup, start, pre), Stack(setup, start, pre), c);
      } else {
        StopInStep(setup, Run(setup, start, pre), Stack(setup, start, pre), c);
      }
    }
  }

  lemma NothingRunning(setup: Setup, start: int)
    requires setup.skip > 0
    ensures InStep(Run(setup, start, []), [])
  {
  }
}
