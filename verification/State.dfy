/** The profiler's state on one rank, as its callbacks change it. */
module States {
  import opened CallTree
  import opened Names
  import opened StackTrees
  import opened RankReduction
  import P = Profile
  import Nesting
  import Aggregation
  import Inversion
  import opened HighWater
  import opened Words

  const NO_ALLOCATIONS: Ledger<Pointer> := Ledger(0, map[])

  const UNUSED: map<Space, Ledger<Pointer>> := map s: Space | true :: NO_ALLOCATIONS

  /** The root, just begun. */
  method StartedStack(now: int) returns (stack: StackTree)
    ensures fresh(stack) && stack.Valid() && 0 < |stack.nodes| && stack.PathAt(0) == []
    ensures stack.View() == map[[] := P.Begun(NEW_NODE, Region, now)]
  {
    hide Linked, ViewOf, P.Begun;
    stack := new StackTree();
    stack.AtRoot();
    stack.Begin(0, now);
    stack.AtRoot();
  }

  class State {
    const demangle: string -> string
    const stack: StackTree
    var stackFrame: Pointer
    var currentAllocations: map<Space, Ledger<Pointer>>
    var hwmAllocations: map<Space, Ledger<Pointer>>

    ghost predicate Valid()
      reads this, stack
    {
      && stack.Valid()
      && (stackFrame.To? ==> stackFrame.address < |stack.nodes|)
      && (forall s: Space :: s in currentAllocations)
      && (forall s: Space :: s in hwmAllocations)
    }

    /** Where the event machine of the tree stands. */
    ghost function Stage(): P.State
      requires Valid()
      reads this, stack
    {
      if stackFrame.To? then P.Running(stack.View(), stack.PathAt(stackFrame.address)) else P.Detached(stack.View())
    }

    ghost function Memory(s: Space): Tracker<Pointer>
      requires Valid()
      reads this, stack
    {
      Tracker(currentAllocations[s], hwmAllocations[s])
    }

    constructor (demangle: string -> string, now: int)
      ensures Valid() && fresh(stack) && this.demangle == demangle
      ensures Stage() == P.Initial(now)
      ensures forall s: Space :: Memory(s) == Tracker(NO_ALLOCATIONS, NO_ALLOCATIONS)
    {
      this.demangle := demangle;
      var root := StartedStack(now);
      stack := root;
      stackFrame := To(0);
      currentAllocations, hwmAllocations := UNUSED, UNUSED;
    }

    // ---- Frames ----

    /** The frame is a child of the one before, of this kind. */
    ghost predicate Entered(before: P.State, kind: StackKind)
      requires Valid()
      reads this, stack
    {
      && before.Running? && Stage().Running? && Stage().frame != []
      && Parent(Stage().frame) == before.frame && Last(Stage().frame).kind == kind
    }

    ghost function FrameName(): string
      requires Valid()
      reads this, stack
    {
      if Stage().Running? then KeyOf(Stage().frame).name else ""
    }

    method BeginFrame(name: string, kind: StackKind, now: int)
      requires Valid() && stackFrame.To?
      modifies this`stackFrame, stack
      ensures Valid() && stackFrame.To?
      ensures old(Stage().frame in Stage().tree)
      ensures Stage() == P.Step(old(Stage()), P.Enter(Key(kind, DemangleKokkos(demangle, name)), now))
      ensures Entered(old(Stage()), kind) && CalledFor(demangle, name, FrameName())
    {
      hide Linked, ViewOf, DemangleKokkos, CalledFor;
      DemangledSo(demangle, name);
      stack.AtNode(stackFrame.address);
      var nameStr := DemangleKokkos(demangle, name);
      var child := stack.GetChild(stackFrame.address, nameStr, kind);
      stackFrame := To(child);
      stack.Begin(child, now);
      ParentOfChild(old(Stage().frame), Key(kind, nameStr));
    }

    method EndFrame(endTime: int)
      requires Valid() && stackFrame.To?
      modifies this`stackFrame, stack
      ensures Valid() && old(Stage().frame in Stage().tree)
      ensures Stage() == P.Step(old(Stage()), P.Leave(endTime))
    {
      hide Linked, ViewOf;
      stack.AtNode(stackFrame.address);
      stack.End(stackFrame.address, endTime);
      stack.AtParent(stackFrame.address);
      stackFrame := stack.nodes[stackFrame.address].parent;
    }

    /** The kernel id is the address of the frame just begun. */
    method BeginKernel(name: string, kind: StackKind, now: int) returns (kernid: nat)
      requires Valid() && stackFrame.To?
      modifies this`stackFrame, stack
      ensures Valid() && stackFrame == To(kernid)
      ensures old(Stage().frame in Stage().tree)
      ensures Stage() == P.Step(old(Stage()), P.Enter(Key(kind, DemangleKokkos(demangle, name)), now))
      ensures Entered(old(Stage()), kind) && CalledFor(demangle, name, FrameName())
    {
      BeginFrame(name, kind, now);
      kernid := stackFrame.address;
    }

    /** The path an id stands for; an id that is no node's address stands for none. */
    ghost predicate IdOf(kernid: nat, id: Path)
      requires Valid()
      reads this, stack
    {
      if kernid < |stack.nodes| then stack.PathAt(kernid) == id else id !in stack.View()
    }

    /** `ok` is false where the program is aborted. */
    method EndKernel(kernid: nat, now: int, ghost id: Path) returns (ok: bool)
      requires Valid() && stackFrame.To? && IdOf(kernid, id)
      modifies this`stackFrame, stack
      ensures Valid() && old(Stage().frame in Stage().tree)
      ensures ok <==> !P.Step(old(Stage()), P.LeaveKernel(id, now)).Aborted?
      ensures ok ==> Stage() == P.Step(old(Stage()), P.LeaveKernel(id, now))
      ensures !ok ==> Stage() == old(Stage())
    {
      hide Linked, ViewOf;
      stack.AtNode(stackFrame.address);
      SameAddress(kernid, id);
      if kernid != stackFrame.address {
        return false;
      }
      EndFrame(now);
      ok := true;
    }

    /** Different addresses are different paths. */
    lemma SameAddress(kernid: nat, id: Path)
      requires Valid() && stackFrame.To? && IdOf(kernid, id)
      ensures kernid == stackFrame.address <==> id == Stage().frame
    {
    }

    method PushRegion(name: string, now: int)
      requires Valid() && stackFrame.To?
      modifies this`stackFrame, stack
      ensures Valid() && stackFrame.To? && old(Stage().frame in Stage().tree)
      ensures Stage() == P.Step(old(Stage()), P.Enter(Key(Region, DemangleKokkos(demangle, name)), now))
      ensures Entered(old(Stage()), Region) && CalledFor(demangle, name, FrameName())
    {
      BeginFrame(name, Region, now);
    }

    method PopRegion(now: int)
      requires Valid() && stackFrame.To?
      modifies this`stackFrame, stack
      ensures Valid() && old(Stage().frame in Stage().tree)
      ensures Stage() == P.Step(old(Stage()), P.Leave(now))
    {
      EndFrame(now);
    }

    method BeginDeepCopy(dst: Space, dstName: string, src: Space, srcName: string, now: int)
      requires Valid() && stackFrame.To?
      modifies this`stackFrame, stack
      ensures Valid() && stackFrame.To? && old(Stage().frame in Stage().tree)
      ensures Stage() == P.Step(old(Stage()),
        P.Enter(Key(Copy, DemangleKokkos(demangle, DeepCopyName(dst, dstName, src, srcName))), now))
      ensures Entered(old(Stage()), Copy)
      ensures CalledFor(demangle, DeepCopyName(dst, dstName, src, srcName), FrameName())
    {
      BeginFrame(DeepCopyName(dst, dstName, src, srcName), Copy, now);
    }

    method EndDeepCopy(now: int)
      requires Valid() && stackFrame.To?
      modifies this`stackFrame, stack
      ensures Valid() && old(Stage().frame in Stage().tree)
      ensures Stage() == P.Step(old(Stage()), P.Leave(now))
    {
      EndFrame(now);
    }

    // ---- Memory ----

    /** `inserted` is false where the source asserts that the block was not live. */
    method Allocate(space: Space, name: string, ptr: nat, size: nat) returns (inserted: bool)
      requires Valid()
      modifies this`currentAllocations, this`hwmAllocations
      ensures Valid() && Stage() == old(Stage())
      ensures Memory(space)
        == HighWater.Step(old(Memory(space)), HighWater.Allocate(name, Block(ptr, size), stackFrame))
      ensures forall s :: s != space ==> Memory(s) == old(Memory(s))
      ensures inserted <==> ptr == 0 || Block(ptr, size) !in old(currentAllocations[space].live)
    {
      hide Linked, ViewOf;
      var allocations := currentAllocations[space];
      inserted := true;
      if ptr != 0 {
        var key := Block(ptr, size);
        inserted := key !in allocations.live;
        if inserted {
          allocations := allocations.(live := allocations.live[key := Info(name, stackFrame)]);
        }
        allocations := allocations.(totalSize := (allocations.totalSize + size) % WORD64);
      }
      currentAllocations := currentAllocations[space := allocations];
      if currentAllocations[space].totalSize > hwmAllocations[space].totalSize {
        hwmAllocations := hwmAllocations[space := currentAllocations[space]];
      }
    }

    /** `known` is false where a warning is printed. */
    method Deallocate(space: Space, ptr: nat, size: nat) returns (known: bool)
      requires Valid()
      modifies this`currentAllocations
      ensures Valid() && Stage() == old(Stage())
      ensures Memory(space) == HighWater.Step(old(Memory(space)), HighWater.Deallocate(Block(ptr, size)))
      ensures forall s :: s != space ==> Memory(s) == old(Memory(s))
      ensures known <==> ptr == 0 || Block(ptr, size) in old(currentAllocations[space].live)
    {
      hide Linked, ViewOf;
      var allocations := currentAllocations[space];
      var key := Block(ptr, size);
      known := ptr == 0 || key in allocations.live;
      if ptr != 0 && known {
        allocations := Ledger((allocations.totalSize - key.size) % WORD64, allocations.live - {key});
      }
      currentAllocations := currentAllocations[space := allocations];
    }

    // ---- Shutting down ----

    /** The tree that goes into the reduction. */
    ghost function Brought(endTime: int): Tree
      requires Valid()
      reads this, stack
    {
      stack.AtRoot();
      Aggregation.Adopted(Nesting.Finished(stack.View(), endTime))
    }

    /** Ends the root, adds up the subtrees, reduces the tree, turns it bottom-up, and reduces that. `ok` is false
        where the program is aborted because a frame is still open. Without MPI `comm` is null; with it, `steps`
        and `invSteps` say after how many collectives the two reductions end. */
    method Finish(endTime: int, comm: Communicator?, ghost steps: nat, ghost invSteps: nat)
      returns (ok: bool, inv: StackTree?)
      requires Valid() && stackFrame.To? && (comm != null ==> comm.Valid())
      requires Ends(Brought(endTime), comm, IssuedBy(comm), steps)
      requires Ends(Inversion.Inverted(AfterReduction(Brought(endTime), comm, IssuedBy(comm), steps)), comm,
                 IssuedBy(comm) + steps, invSteps)
      modifies stack, comm
      ensures Valid() && old(Stage().frame in Stage().tree)
      ensures ok <==> old(Stage().frame) == []
      ensures ok ==> stack.View() == AfterReduction(old(Brought(endTime)), comm, old(IssuedBy(comm)), steps)
      ensures ok ==> inv != null && fresh(inv) && inv.Valid()
      ensures ok ==>
        inv.View() == AfterReduction(Inversion.Inverted(stack.View()), comm, old(IssuedBy(comm)) + steps, invSteps)
      ensures !ok ==> stack.View() == old(stack.View()) && inv == null
    {
      hide Linked, ViewOf, AfterReduction, Ends, Inversion.Inverted, P.Ended;
      stack.AtNode(stackFrame.address);
      stack.AtRoot();
      inv := null;
      if stackFrame != To(0) {
        OnlyRoot();
        return false, null;
      }
      ghost var from := IssuedBy(comm);
      stack.End(0, endTime);
      stack.Adopt(0);
      ReduceTree(stack, comm, steps);
      inv := stack.Invert();
      SameFrom(comm, from, steps, Inversion.Inverted(stack.View()), invSteps);
      ReduceTree(inv, comm, invSteps);
      stack.AtRoot();
      ok := true;
    }

    /** Without MPI it does not matter how many collectives there have been. */
    lemma SameFrom(comm: Communicator?, from: nat, steps: nat, t: Tree, invSteps: nat)
      requires comm != null ==> IssuedBy(comm) == from + steps
      ensures Ends(t, comm, IssuedBy(comm), invSteps) == Ends(t, comm, from + steps, invSteps)
      ensures AfterReduction(t, comm, IssuedBy(comm), invSteps) == AfterReduction(t, comm, from + steps, invSteps)
    {
    }

    /** Only the root is at the empty path. */
    lemma OnlyRoot()
      requires Valid() && stackFrame.To? && stackFrame != To(0)
      ensures Stage().frame != []
    {
    }
  }
}
