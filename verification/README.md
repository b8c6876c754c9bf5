# Kokkos Tools: the profilers' arithmetic, proved

This project models the space-time-stack profiler of Kokkos Tools and three tools around it, and proves what their
output means.

**Space-time-stack.** A stream of begin and end events builds a tree of nodes keyed by kind and name. When the
profiler shuts down, `adopt` sums the Kokkos columns over subtrees, `reduce_over_mpi` gives every rank the union of
all ranks' trees, `invert` turns the tree bottom-up, the result is reduced a second time, and both trees are printed,
cutting subtrees under a threshold. Next to the tree, live allocations are kept with a snapshot of the largest total,
and one rank's snapshot is sent to rank 0. The chain is proved from end to end, with and without MPI: `Shutdown`
starts from the events of a complete run, carries out the destructor in place, and ends at the lines of the two
reports.

**Around it.** The binary records of the simple kernel timer and the readers that merge them; the sampler, which
passes some kernels on to a child tool (also with the space-time-stack as that child); and the memory-events counter,
compared with the space-time-stack's ledger.

How the pieces fit:

| module | what it holds |
|---|---|
| `CallTree`, `Sums`, `Traversal`, `Orders`, `Names`, `Words` | trees as maps from paths to node data, finite sums, queue traversal, sibling orders, the names of frames, machine words |
| `Profile`, `Nesting` | the event machine, its reference stack, and the time bounds of every reachable state |
| `Aggregation`, `Inversion`, `BottomUp` | what `adopt` and `invert` compute, and what the numbers mean |
| `StackTrees`, `RankReduction`, `States`, `Printer` | the same operations in place, on nodes with parent pointers and child sets |
| `Printing` | what the report shows, how often, in which order |
| `Mpi`, `Reduction`, `Lockstep`, `Agreement`, `Communication` | the reduction as a program every rank runs, its whole runs, and one rank within them |
| `FinalReport`, `WholeRun`, `Shutdown`, `ShortRuns` | what the two reductions keep, from events to printed lines, and two runs with surprising reports |
| `HighWater`, `Snapshot`, `MemoryEvents` | live allocations, delivery of the snapshot, the second memory tool |
| `KernelRecord`, `Merging`, `ReaderTotals`, `KernelTimer` | binary records, merging by name, the reader's totals, and the classes that read and write |
| `Sampling`, `SamplerTool`, `SampledStack` | the sampler, its callbacks, and the space-time-stack behind it |

## Modelling choices

- Durations are integer nanoseconds from a clock that never runs backwards; averages, percentages and the kernel
  timer's seconds are reals. Rounding is not modelled. 64-bit sizes and merged call counts wrap explicitly.
- A node is an address into the tree's node list; its parent pointer, name, kind, child set and data are fields.
  Children are looked up by kind and name. A kernel id is the address of the node begun.
- `std::set` iteration order is arbitrary where nothing depends on it. The printer visits children by kind and name,
  because which of two tied siblings survives depends on it; the reduction sends them by name and kind.
- A collective completes, on all ranks at once, only if all ranks issue it with the same root and count. The
  in-place reduction of one rank takes the results of its collectives from a stream and records what it issues; what
  the stream delivers is fixed by the run of all ranks (`Communication.Delivers`).
- A blocking send completes when its message has been taken, or at once if the library buffers it; both are allowed
  at every send.
- Demangling, the bytes of a double, random draws, the child tool's ids and the clock are parameters.
- Asserts are taken as compiled out: an allocation of a live block is not entered again but its size is added, and a
  null pointer's size is ignored. Both are visible in the results.

## Where code and documentation differ

The model follows the code.

- The sampler announces that at 100 percent all invocations are profiled. A draw equal to `RAND_MAX` is dropped
  (`Sampling.LargestDrawDropped`; `Sampling.FullSampling` gives the exact condition). A skip of -1 makes the tool
  divide by zero (`Sampling.ProbabilityWins`).
- The report is meant to show every node over the threshold. The comparator of siblings ignores kinds, so of two that
  tie in time and name one is missing with its subtree (`ShortRuns.TieHides`, on a complete run;
  `Printing.OnlyTiesHide`).
- Kokkos time is meant to be a part of total time. A kernel inside a kernel is counted in both
  (`ShortRuns.KokkosOverTotal`, on a complete run; `Aggregation.KokkosWithinTotalIff`).
- The bottom-up tree is made from reduced totals and reduced again, so its totals are multiplied by the number of
  ranks and its averages are not averages; its percentages are right (`FinalReport.BottomUpTotals`, `BottomUpPercent`).
- Merging files squares a record's whole time instead of adding its sum of squares (`Merging.TimeSqLost`;
  `Merging.TimeSqKept`).
- The reader's total over kernels depends on the order of the files if a name is a region in one and a kernel in
  another (`ReaderTotals.TotalDependsOnOrder`; `ReaderTotals.OrderFreeIff`).

## Model

| member | source | states |
|---|---|---|
| Profile.RunRefines | profiling/space-time-stack/kp_space_time_stack.cpp:745-769 | a run keeps going if and only if its events are well nested; then, at every path, the node exists exactly if something began there, its call count is the number of begins, its time the summed durations of a reference stack's activations, and its one start-time slot that of the activation open there, recursive names included |
| Profile.RunFails | profiling/space-time-stack/kp_space_time_stack.cpp:758-769 | the event that breaks the nesting: a kernel end for another frame aborts, any other end pops the root and the event after it follows a null pointer |
| Profile.StepValid | profiling/space-time-stack/kp_space_time_stack.cpp:158-194 | any event, well nested or not, leaves a tree whose frame is one of its nodes, or no frame at all |
| Nesting.Tick | profiling/space-time-stack/kp_space_time_stack.cpp:191-194 | as time passes, the children of an open node are never busy for longer than the node, because at most one of them is open |
| Nesting.EnterNested | profiling/space-time-stack/kp_space_time_stack.cpp:182-190 | beginning a frame keeps the bound on busy times at every node |
| Nesting.LeaveNested | profiling/space-time-stack/kp_space_time_stack.cpp:750-753 | ending a frame keeps it |
| Nesting.RunNested | profiling/space-time-stack/kp_space_time_stack.cpp:745-769 | it holds in every reachable state of every well-nested run, open frames included |
| Nesting.FinishedNested | profiling/space-time-stack/kp_space_time_stack.cpp:645-658 | after shutdown the total times of a node's children sum to no more than its own |
| Aggregation.SubtreeUnfold | profiling/space-time-stack/kp_space_time_stack.cpp:199-203 | a sum over a subtree is the root's share plus the sums over the children's subtrees, for any column |
| Aggregation.AdoptedChild | profiling/space-time-stack/kp_space_time_stack.cpp:199-203 | one turn of the loop over children settles exactly that child's subtree, in whatever order children come |
| Aggregation.KernelOvercount | profiling/space-time-stack/kp_space_time_stack.cpp:195-205 | a kernel's Kokkos time exceeds its own time by what the kernels inside it took |
| Aggregation.KokkosWithinTotalIff | profiling/space-time-stack/kp_space_time_stack.cpp:195-205 | Kokkos time stays within total time at every node if and only if no kernel spent time inside another |
| Inversion.CallersAt | profiling/space-time-stack/kp_space_time_stack.cpp:231-233 | the n-th key of the leaf-first walk is that of the n-th ancestor, the root's empty key last |
| Inversion.WholeWalk | profiling/space-time-stack/kp_space_time_stack.cpp:227-237 | crediting one node along its walk adds it to the bottom-up tree of the nodes already handled: every prefix of its walk gets its share once |
| BottomUp.InvertedDomain | profiling/space-time-stack/kp_space_time_stack.cpp:206-240 | a bottom-up node exists exactly where some node's leaf-first path begins that way |
| BottomUp.InvertedAt | profiling/space-time-stack/kp_space_time_stack.cpp:206-240 | at every leaf-first path the three columns are sums over exactly the nodes whose walk to the root begins with it |
| BottomUp.CallersInjective | profiling/space-time-stack/kp_space_time_stack.cpp:231-237 | different nodes have different leaf-first paths |
| BottomUp.FirstLevel | profiling/space-time-stack/kp_space_time_stack.cpp:206-240 | a first-level entry holds exclusive time, exclusive Kokkos time and calls of that kind and name over all contexts |
| BottomUp.NothingLost | profiling/space-time-stack/kp_space_time_stack.cpp:213-237 | in either time column, a bottom-up node's time less its children's is the own time of the one node whose whole walk it is, or zero |
| BottomUp.InvertedNested | profiling/space-time-stack/kp_space_time_stack.cpp:206-240 | whatever tree it is made from, a bottom-up tree is well formed and children fit into their parents, in either time column |
| BottomUp.RootTotal | profiling/space-time-stack/kp_space_time_stack.cpp:213-230 | in either time column, the bottom-up root exceeds the top-down root by exactly what the clamps added |
| BottomUp.RootConserved | profiling/space-time-stack/kp_space_time_stack.cpp:221-230 | in either time column, the two roots hold the same time if and only if at every node the children fit, and never less |
| StackTrees.LinkedGrows | profiling/space-time-stack/kp_space_time_stack.cpp:158-167 | hanging a new node below another keeps parent pointers, child sets and paths one tree |
| StackTrees.ChildIsNode | profiling/space-time-stack/kp_space_time_stack.cpp:158-173 | a child set has an entry for a kind and name exactly if that path is in the tree, and it points at that node |
| StackTrees.StackTree.constructor | profiling/space-time-stack/kp_space_time_stack.cpp:150-157 | a fresh tree holds one empty root |
| StackTrees.StackTree.GetChild | profiling/space-time-stack/kp_space_time_stack.cpp:158-167 | the child of that kind and name is returned, created empty if it was missing, and nothing else changes |
| StackTrees.StackTree.Begin | profiling/space-time-stack/kp_space_time_stack.cpp:182-190 | counts the call, counts it as a kernel unless the node is a region, and starts the clock, at this node alone |
| StackTrees.StackTree.End | profiling/space-time-stack/kp_space_time_stack.cpp:191-194 | adds the time since the start, at this node alone |
| StackTrees.StackTree.Adopt | profiling/space-time-stack/kp_space_time_stack.cpp:195-205 | the recursion, child by child and in place, leaves at every node below the sums over its whole subtree, and no other node or link changed |
| StackTrees.StackTree.Invert | profiling/space-time-stack/kp_space_time_stack.cpp:206-240 | the queue loop with its walks over parent pointers builds, in a tree of its own, the bottom-up tree: at each leaf-first path the sums of own time, own Kokkos time and calls over exactly the nodes whose walk begins with it |
| StackTrees.StackTree.PushChildren | profiling/space-time-stack/kp_space_time_stack.cpp:213-226 | queues every child once and yields the node's own share |
| StackTrees.StackTree.CreditCallers | profiling/space-time-stack/kp_space_time_stack.cpp:227-237 | credits one share to the root and to every step of one node's walk, creating what is missing |
| StackTrees.StackTree.ReduceLocally | profiling/space-time-stack/kp_space_time_stack.cpp:479-491 | without MPI every node's largest and average time become its own, in place |
| Printing.OrderedMembers | profiling/space-time-stack/kp_space_time_stack.cpp:366-375 | the sorted child set holds every child not tied with one of lower kind, strictly by falling time and then by name |
| Orders.InsertOrdered | profiling/space-time-stack/kp_space_time_stack.cpp:372-375 | inserting children kind by kind into the sorted set, an equal entry being kept, builds that order |
| Orders.NameLessIs | profiling/space-time-stack/kp_space_time_stack.cpp:370 | names are compared as strings: a proper beginning comes first, and otherwise the smaller character at the first difference |
| Orders.KindsInOrder | profiling/space-time-stack/kp_space_time_stack.cpp:85-91 | kinds compare in the order of their declaration |
| Printing.PrintExact | profiling/space-time-stack/kp_space_time_stack.cpp:325-390 | on any tree, each named node that printing gets to is printed exactly once, and no other node is |
| Printing.PrintOrder | profiling/space-time-stack/kp_space_time_stack.cpp:332-389 | of any two lines: a node comes before what is below it, and of two branches the one that took longer comes first, or took as long under the name that is smaller character by character |
| Printing.PrintIndents | profiling/space-time-stack/kp_space_time_stack.cpp:376-389 | every line is indented by a rail for each node above it that has a sibling still to come, and blanks for the others |
| Printing.PruningSound | profiling/space-time-stack/kp_space_time_stack.cpp:328-331 | where largest times never grow downward, cutting subtrees hides no node that is itself at or over the threshold |
| Printing.ThresholdIs | profiling/space-time-stack/kp_space_time_stack.cpp:328-331 | a node is cut exactly if 100 times its largest time, counted for all ranks, is less than the threshold times the tree's time; without time nothing is cut |
| Printing.OnlyTiesHide | profiling/space-time-stack/kp_space_time_stack.cpp:325-375 | the report is exactly the named nodes at or over the threshold of which neither the node nor one above it is tied with a sibling of lower kind, each once |
| Printing.ReportExact | profiling/space-time-stack/kp_space_time_stack.cpp:325-397 | without ties the report is exactly the named nodes at or over the threshold, each once |
| Printer.InsertByTime | profiling/space-time-stack/kp_space_time_stack.cpp:372-375 | the sorted set after one insertion |
| Printer.ChildrenByTime | profiling/space-time-stack/kp_space_time_stack.cpp:366-375 | the loop over the child set arrives at the report's order of the children |
| Printer.PrintRecursive | profiling/space-time-stack/kp_space_time_stack.cpp:325-390 | the recursion over nodes in memory prints the specified lines with the specified indentation |
| Printer.PrintChildren | profiling/space-time-stack/kp_space_time_stack.cpp:378-389 | the loop over sorted children, where the last one closes its parent's rail |
| Lockstep.Election | profiling/space-time-stack/kp_space_time_stack.cpp:469-473 | the next broadcaster is the lowest rank with children left to send, and is above the last one |
| Lockstep.GoodKind | profiling/space-time-stack/kp_space_time_stack.cpp:441-467 | queueing a broadcast child keeps the common description: no path twice, parents before children, finished nodes complete |
| Lockstep.AllMatch | profiling/space-time-stack/kp_space_time_stack.cpp:413-472 | whatever their trees, all ranks' next collectives agree in operation, root, count and type, and a name is sent with room for exactly its length |
| Lockstep.OutcomeIs | profiling/space-time-stack/kp_space_time_stack.cpp:410-421 | what each collective delivers, in terms of the trees the ranks started from |
| Agreement.StepExplained | profiling/space-time-stack/kp_space_time_stack.cpp:404-473 | one collective on all ranks keeps every rank's local state in accordance with one description |
| Agreement.NeverStuck | profiling/space-time-stack/kp_space_time_stack.cpp:404-473 | after any number of steps either all ranks are done or all issue the same collective: no rank waits forever |
| Agreement.SameQueues | profiling/space-time-stack/kp_space_time_stack.cpp:404-468 | at every step all ranks work on the same node and have queued the same paths in the same order, none twice |
| Agreement.RoundsRise | profiling/space-time-stack/kp_space_time_stack.cpp:431-473 | each round ends with a strictly higher broadcaster that has something to send, or with nothing pending on any rank |
| Agreement.RoundBound | profiling/space-time-stack/kp_space_time_stack.cpp:431-473 | however long the exchange of one node's children goes on, it has at most as many rounds as there are ranks |
| Agreement.Closer | profiling/space-time-stack/kp_space_time_stack.cpp:407-474 | every collective brings the reduction closer to its end |
| Agreement.Finishes | profiling/space-time-stack/kp_space_time_stack.cpp:407-474 | so the reduction ends |
| Agreement.EverythingEntered | profiling/space-time-stack/kp_space_time_stack.cpp:431-473 | at the end every path any rank had has been queued |
| Agreement.ReductionCorrect | profiling/space-time-stack/kp_space_time_stack.cpp:398-474 | for any number of ranks and any trees the run ends with every rank holding the union of all trees, at each path the sum, the maximum and the average of the total times and the sum of the Kokkos times, missing nodes counting zero, and its own call counts |
| FinalReport.ReducedColumns | profiling/space-time-stack/kp_space_time_stack.cpp:410-421 | the columns of a reduced node: sums over ranks, a largest time that one rank has and none exceeds, an average that times the number of ranks is the total, and the rank's own call counts |
| Reduction.ListingSorted | profiling/space-time-stack/kp_space_time_stack.cpp:431-434 | a rank sends its children by name and then by kind |
| Communication.RankFollows | profiling/space-time-stack/kp_space_time_stack.cpp:404-473 | a rank that is delivered what the collectives of all ranks come to is, after any number of them, where it is in the run of all ranks |
| Communication.RankEnds | profiling/space-time-stack/kp_space_time_stack.cpp:398-474 | so its own reduction ends, with the union of all trees, the sums and the maxima |
| RankReduction.SumTimes | profiling/space-time-stack/kp_space_time_stack.cpp:413-416 | the first two reductions of a node: the collectives issued and the fields stored are those of the rank's program |
| RankReduction.SumOthers | profiling/space-time-stack/kp_space_time_stack.cpp:417-421 | the other two |
| RankReduction.SendChild | profiling/space-time-stack/kp_space_time_stack.cpp:442-453 | the broadcaster issues length, name and kind of one child, enters it and queues it |
| RankReduction.ReceiveChild | profiling/space-time-stack/kp_space_time_stack.cpp:456-467 | another rank receives one child, enters it if it is missing, queues it and takes it off its own set |
| RankReduction.Round | profiling/space-time-stack/kp_space_time_stack.cpp:437-468 | one round, on the broadcaster and on the others: all that is pending there is sent, and nothing else |
| RankReduction.ExchangeChildren | profiling/space-time-stack/kp_space_time_stack.cpp:431-473 | the do-while loop over rounds, ended by the election of no rank |
| RankReduction.ReduceOverMpi | profiling/space-time-stack/kp_space_time_stack.cpp:398-474 | the nested loops of one rank, changing its tree in place: whatever the library delivers, exactly the collectives of the rank's program are issued in order, and exactly its tree is left |
| RankReduction.ReduceTree | profiling/space-time-stack/kp_space_time_stack.cpp:398-492 | both branches of the reduction |
| FinalReport.SumOverRanks | profiling/space-time-stack/kp_space_time_stack.cpp:413-421 | summing over nodes and over ranks may be exchanged |
| FinalReport.ReducedNested | profiling/space-time-stack/kp_space_time_stack.cpp:413-421 | the reduction keeps, in both time columns, that children fit into their parent, so no clamp changes a value afterwards |
| FinalReport.ReducedMaxFalls | profiling/space-time-stack/kp_space_time_stack.cpp:410-416 | the largest time over ranks never grows downward, although different ranks may attain it at different nodes |
| FinalReport.BottomUpTotals | profiling/space-time-stack/kp_space_time_stack.cpp:660-680 | bottom-up totals are the number of ranks times what a rank computed, and the printed average is that rank's total |
| FinalReport.BottomUpRoot | profiling/space-time-stack/kp_space_time_stack.cpp:660-680 | the bottom-up grand total is the number of ranks times the top-down one |
| FinalReport.BottomUpPercent | profiling/space-time-stack/kp_space_time_stack.cpp:328-329 | bottom-up percentages survive the double reduction |
| FinalReport.RemainderInRange | profiling/space-time-stack/kp_space_time_stack.cpp:342-347 | the printed remainder of a node with any time lies between 0 and 100 percent |
| WholeRun.RankTreeHolds | profiling/space-time-stack/kp_space_time_stack.cpp:645-659 | what a complete run brings to the reduction: the paths begun, their times and calls, the root with the whole run time, children fitting into parents in both columns |
| WholeRun.RankTreeAggregates | profiling/space-time-stack/kp_space_time_stack.cpp:195-205 | each node's Kokkos time and kernel count are those of the kernel and copy activations of its subtree |
| WholeRun.RankKokkosBounded | profiling/space-time-stack/kp_space_time_stack.cpp:195-205 | on a finished run Kokkos time stays within total time exactly if no kernel spent time inside another |
| WholeRun.ReducedRun | profiling/space-time-stack/kp_space_time_stack.cpp:645-660 | from the events of all ranks: the first reduction ends, every rank holds the reduced tree, children fit, cutting is sound, and the root holds the summed run times |
| WholeRun.BottomUpRun | profiling/space-time-stack/kp_space_time_stack.cpp:679-680 | the second reduction ends as well, with the same guarantees for the bottom-up tree, in both time columns |
| WholeRun.TopDownReport | profiling/space-time-stack/kp_space_time_stack.cpp:683-694 | over MPI, in terms of the events alone: the top-down report of any rank shows a path, once, exactly if it has a name, was begun on some rank, its largest time over ranks, counted for all, reaches that percentage of all run times, and no tie hides it |
| WholeRun.BottomUpReport | profiling/space-time-stack/kp_space_time_stack.cpp:695-700 | the bottom-up report shows a node, once, exactly if it has a name, its total before the second reduction reaches that percentage of all run times, and no tie hides it |
| WholeRun.RankTreeAlone | profiling/space-time-stack/kp_space_time_stack.cpp:144 | every node of a run's tree has a communicator of one until it is reduced over MPI |
| WholeRun.AloneReport | profiling/space-time-stack/kp_space_time_stack.cpp:479-491 | without MPI, a node's largest and average time are its own, largest times never grow downward where times are nested, and the report is exact but for ties |
| WholeRun.RunReports | profiling/space-time-stack/kp_space_time_stack.cpp:717-731 | both reports of a complete run without MPI; the top-down one in terms of the events alone: the named paths begun whose time reaches that percentage of the run time and that no tie hides, once each |
| WholeRun.OwnParts | profiling/space-time-stack/kp_space_time_stack.cpp:213-226 | on a complete run no clamp has a say: a node's share is the time spent in it alone, its own time in the Kokkos column if it is a kernel, and the number of times it was begun |
| WholeRun.RunBottomUp | profiling/space-time-stack/kp_space_time_stack.cpp:206-240 | the bottom-up tree of a run in terms of its events: at every leaf-first path the sums of these over the nodes whose walk begins with it |
| ShortRuns.KokkosOverTotal | profiling/space-time-stack/kp_space_time_stack.cpp:195-205 | a complete run with a loop in a loop whose Kokkos time is twice its time |
| ShortRuns.TieHides | profiling/space-time-stack/kp_space_time_stack.cpp:366-371 | a complete run with a loop and a region of one name and time: the region reaches the threshold and is not shown |
| Shutdown.Print | profiling/space-time-stack/kp_space_time_stack.cpp:391-397 | printing any tree from its root: every node on as many lines as its report has for it, in order, and with its indentation |
| Shutdown.ShutDownAlone | profiling/space-time-stack/kp_space_time_stack.cpp:645-731 | without MPI, the destructor after a complete run, in place: it does not abort, prints both reports, and the top-down one shows exactly the named paths begun whose time reaches that percentage of the run time, but for ties |
| Shutdown.ShutDownOverMpi | profiling/space-time-stack/kp_space_time_stack.cpp:645-701 | the same for one rank of many: its trees become the common reduced ones, and rank 0 prints both reports, the top-down one in terms of all ranks' events |
| Names.SlashAt | common/utils/demangle.hpp:45-47 | the first slash of a name, or its end |
| Names.DemangledSo | common/utils/demangle.hpp:45-57 | a functor and a tag are demangled apart and keep the slash between them; a name without a slash, or with nothing before it, is demangled whole |
| Names.TagsApart | common/utils/demangle.hpp:45-57 | kernels of one functor begun in one frame are different nodes if and only if the demangler keeps their tags apart |
| Names.CopyNamesApart | profiling/space-time-stack/kp_space_time_stack.cpp:784-797 | copies are called alike if and only if labels and spaces agree, destination with destination and source with source |
| Names.CopyToDevice | profiling/space-time-stack/kp_space_time_stack.cpp:787-796 | a copy from host to device as it is named: destination first |
| States.State.constructor | profiling/space-time-stack/kp_space_time_stack.cpp:642-644 | the root is begun and is the frame, and no space has allocations |
| States.State.BeginFrame | profiling/space-time-stack/kp_space_time_stack.cpp:745-749 | one step of the event machine, into a child of the frame with that kind and the name demangled part by part |
| States.State.EndFrame | profiling/space-time-stack/kp_space_time_stack.cpp:750-753 | one step back to the parent; at the root the frame becomes null |
| States.State.BeginKernel | profiling/space-time-stack/kp_space_time_stack.cpp:754-757 | the same, and the id returned is the new frame's address |
| States.State.EndKernel | profiling/space-time-stack/kp_space_time_stack.cpp:758-767 | aborts exactly if the id is not the current frame, otherwise ends it |
| States.State.PushRegion | profiling/space-time-stack/kp_space_time_stack.cpp:768 | a region begins, under the name demangled part by part |
| States.State.PopRegion | profiling/space-time-stack/kp_space_time_stack.cpp:769 | the current frame ends, whatever it is |
| States.State.BeginDeepCopy | profiling/space-time-stack/kp_space_time_stack.cpp:784-798 | a copy begins, named after both views and spaces |
| States.State.EndDeepCopy | profiling/space-time-stack/kp_space_time_stack.cpp:799 | the current frame ends, whatever it is |
| States.State.Allocate | profiling/space-time-stack/kp_space_time_stack.cpp:770-778 | one step of that space's ledger and high-water snapshot; the other spaces and the tree stay as they are |
| States.State.Deallocate | profiling/space-time-stack/kp_space_time_stack.cpp:779-783 | one step of that space's ledger; says when the block was not live |
| States.State.Finish | profiling/space-time-stack/kp_space_time_stack.cpp:645-680 | aborts exactly if a frame is still open; otherwise ends, aggregates, reduces, inverts and reduces again, with or without MPI, leaving both trees |
| HighWater.LiveIsAllocated | profiling/space-time-stack/kp_space_time_stack.cpp:513-544 | the live set holds exactly the blocks whose last event is their allocation |
| HighWater.LiveInfo | profiling/space-time-stack/kp_space_time_stack.cpp:513-523 | a live block is remembered with the label and frame of the last allocation that found it not live |
| HighWater.TotalIsLive | profiling/space-time-stack/kp_space_time_stack.cpp:509-544 | on every run the total is the live bytes plus what duplicate allocations added, in 64-bit arithmetic |
| HighWater.ExactTotal | profiling/space-time-stack/kp_space_time_stack.cpp:509-544 | without duplicates it is the live bytes, after every event |
| HighWater.SnapshotAtFirstPeak | profiling/space-time-stack/kp_space_time_stack.cpp:770-783 | the snapshot is the exact ledger at the first moment the total was as high as it ever got, although only allocations are compared |
| Snapshot.LowestOfTheLargest | profiling/space-time-stack/kp_space_time_stack.cpp:549-563 | exactly the lowest rank with the largest total is elected |
| Snapshot.MoveConsistent | profiling/space-time-stack/kp_space_time_stack.cpp:585-608 | any step of any rank keeps the two messages in order, each received as what it is with room for all of it |
| Snapshot.NeverStuck | profiling/space-time-stack/kp_space_time_stack.cpp:585-608 | no interleaving gets stuck, even if sends wait for their receive and rank 0 sends to itself |
| Snapshot.Delivered | profiling/space-time-stack/kp_space_time_stack.cpp:585-608 | when all ranks are through, rank 0 has printed the elected rank's whole text, once |
| Snapshot.RunsAreFinite | profiling/space-time-stack/kp_space_time_stack.cpp:585-608 | every run ends within seven steps a rank and two deliveries |
| Snapshot.LargestPrinted | profiling/space-time-stack/kp_space_time_stack.cpp:549-608 | together: of all snapshots that of the lowest rank with the largest total is printed by rank 0, with nothing stuck on the way and in a bounded number of steps |
| MemoryEvents.Spaces.SpaceIndex | profiling/memory-events/kp_memory_events.cpp:102-109 | finds the space of a name or enters it, and changes no account |
| MemoryEvents.Spaces.AllocateData | profiling/memory-events/kp_memory_events.cpp:96-116 | the space's size grows, modulo 64 bits, and is recorded; other spaces are untouched |
| MemoryEvents.Spaces.DeallocateData | profiling/memory-events/kp_memory_events.cpp:118-140 | the size shrinks and is recorded unless more would be taken than there is |
| MemoryEvents.HighWaterColumn | profiling/memory-events/kp_memory_events.cpp:81-90 | each line shows the maximum of the sizes up to it |
| MemoryEvents.RecordedAre | profiling/memory-events/kp_memory_events.cpp:110-135 | a line is written after every event but a refused free, in order |
| MemoryEvents.TrackIs | profiling/memory-events/kp_memory_events.cpp:110-135 | the lines hold the size after each of these events, frees included, and the last one the current size |
| MemoryEvents.LinesAreTotals | profiling/memory-events/kp_memory_events.cpp:110-135 | where the tools agree and nothing is refused, line i is the space-time-stack's total after event i |
| MemoryEvents.ToolsAgree | profiling/memory-events/kp_memory_events.cpp:96-140 | the counter equals the space-time-stack's total after every event if and only if every event is one both tools count alike |
| MemoryEvents.MaximaAgree | profiling/memory-events/kp_memory_events.cpp:81-84 | then the running maximum ends at the space-time-stack's high-water mark |
| MemoryEvents.MatchingAgrees | profiling/memory-events/kp_memory_events.cpp:96-140 | on every run whose frees match live blocks and that allocates no live block, all sizes, all lines and the maxima agree |
| KernelRecord.IntegerRoundTrip | profiling/simple-kernel-timer/kp_kernel_info.h:117-134 | an integer copied byte by byte comes back |
| KernelRecord.EntryRoundTrip | profiling/simple-kernel-timer/kp_kernel_info.h:61-139 | parsing a written record gives back name, count, both doubles and type |
| KernelRecord.RecordLayout | profiling/simple-kernel-timer/kp_kernel_info.h:108-139 | where each field of a record lies and what its bytes are worth, least significant first, the kinds as 0 to 3 |
| KernelRecord.ReadOne | profiling/simple-kernel-timer/kp_kernel_info.h:61-106 | wherever it stands in a file, a written record is read whole, and reading goes on right behind it |
| KernelRecord.ReadBack | profiling/simple-kernel-timer/kp_json_writer.cpp:16-33 | the loop to the end of the file yields the records written, in order, names demangled, and nothing else |
| KernelRecord.FileRoundTrip | profiling/simple-kernel-timer/kp_kernel_timer.cpp:158-164 | for a whole file: the header gives back the run time and the loop the records |
| KernelTimer.InputFile.Fread | profiling/simple-kernel-timer/kp_kernel_info.h:61-68 | one object of n bytes is read, or the file is used up and marked ended; an object of no bytes is never read |
| KernelTimer.CopyBytes | profiling/simple-kernel-timer/kp_kernel_info.h:142-146 | the byte loop copies the whole source and nothing beside it |
| KernelTimer.KernelPerformanceInfo.AddTime | profiling/simple-kernel-timer/kp_kernel_info.h:38-41 | adds the time and its square |
| KernelTimer.KernelPerformanceInfo.AddCallCount | profiling/simple-kernel-timer/kp_kernel_info.h:59 | adds the calls, modulo 64 bits |
| KernelTimer.KernelPerformanceInfo.WriteToBinaryFile | profiling/simple-kernel-timer/kp_kernel_info.h:108-139 | filling the buffer field by field appends exactly the record to the file |
| KernelTimer.KernelPerformanceInfo.ReadFromFile | profiling/simple-kernel-timer/kp_kernel_info.h:61-106 | finds a record, an empty record, the end of the file, or a record too short for its fields, and says which |
| KernelTimer.WriteFile | profiling/simple-kernel-timer/kp_kernel_timer.cpp:158-164 | writes the run time and then every record |
| KernelTimer.FindIndexOf | profiling/simple-kernel-timer/kp_shared.h:32-40 | the scan returns the first entry of that name |
| Merging.FindIndex | profiling/simple-kernel-timer/kp_shared.h:32-40 | the first index with the name, or -1 exactly if there is none |
| KernelTimer.FillInfo | profiling/simple-kernel-timer/kp_json_writer.cpp:16-33 | the loop to the end of the file merges exactly the file's records, in order, into the objects of the list |
| KernelTimer.ReadFiles | profiling/simple-kernel-timer/kp_reader.cpp:42-69 | over all files: the sum of the run times and the merge of all their records |
| KernelTimer.ShortFile | profiling/simple-kernel-timer/kp_reader.cpp:45-51 | a file too short for its header adds neither time nor records |
| KernelTimer.KernelTotals | profiling/simple-kernel-timer/kp_reader.cpp:73-78 | the loop sums time and calls of everything in the list but regions |
| KernelTimer.ReaderSums | profiling/simple-kernel-timer/kp_reader.cpp:42-78 | the reader from the files to its totals, the sort in between: run times summed, and time and calls of the records whose name was first read as a kernel's |
| KernelTimer.FileOrderIrrelevant | profiling/simple-kernel-timer/kp_reader.cpp:42-69 | names, times and calls of the merged list, its grand total and the sum of the run times do not depend on the order of the files |
| KernelTimer.WrittenFilesRead | profiling/simple-kernel-timer/kp_reader.cpp:42-69 | reading the files any number of processes wrote gives back all their records and the sum of their run times |
| Merging.MergeConcat | profiling/simple-kernel-timer/kp_json_writer.cpp:51-63 | merging file after file is merging all their records |
| Merging.MergedSummary | profiling/simple-kernel-timer/kp_json_writer.cpp:16-33 | the list names each non-empty name once, with the sums of times and calls over the records of that name and the first record's kind |
| Merging.OrderIrrelevant | profiling/simple-kernel-timer/kp_json_writer.cpp:51-63 | names, times and calls do not depend on the order of files and records |
| Merging.GrandTotal | profiling/simple-kernel-timer/kp_json_writer.cpp:16-33 | merging neither adds nor loses time of named records |
| ReaderTotals.TotalsAre | profiling/simple-kernel-timer/kp_reader.cpp:73-78 | the reader's kernel time and calls, whatever was read: a named record counts unless the first record of its name is a region |
| ReaderTotals.SortedTotals | profiling/simple-kernel-timer/kp_reader.cpp:71-78 | sorting the list changes neither total |
| ReaderTotals.GrandTotalOrder | profiling/simple-kernel-timer/kp_json_writer.cpp:51-63 | the time of all entries together does not depend on the order of the records |
| ReaderTotals.TotalDependsOnOrder | profiling/simple-kernel-timer/kp_reader.cpp:73-78 | two records in whose two orders the reader's kernel time is 0 and 3 |
| ReaderTotals.OrderFreeIff | profiling/simple-kernel-timer/kp_reader.cpp:51-78 | the reader's kernel time is the same for every order of the records if and only if every name read both as a region and as a kernel carries no time |
| ReaderTotals.KernelTimeKept | profiling/simple-kernel-timer/kp_reader.cpp:73-78 | for any records, it is the time of all non-region records if and only if the regions counted under a kernel's name carry as much time as the kernels not counted; where names and kinds agree, time and calls are both right |
| Merging.TimeSqKept | profiling/simple-kernel-timer/kp_kernel_info.h:38-41 | for any records, the merged sum of squares exceeds the sum of the sums by what the squares of the later records' times exceed theirs; for times that are not negative that is nothing if and only if those records look like single calls |
| Merging.TimeSqLost | profiling/simple-kernel-timer/kp_kernel_info.h:38-41 | two records for which it is not |
| Sampling.ProbabilityWins | common/kokkos-sampler/kp_sampler_skip.cpp:205-261 | a set probability overrides any skip, negative ones included; a skip of -1 alone leads to a division by zero and lower ones to enormous skips; the percentage is always in range |
| Sampling.StepSound | common/kokkos-sampler/kp_sampler_skip.cpp:268-411 | any callback keeps the map equal to the forwarded kernels still open in the child |
| Sampling.IdsAre | common/kokkos-sampler/kp_sampler_skip.cpp:189 | ids are handed out one after the other from 1 on, to all constructs together |
| Sampling.EndPassedOn | common/kokkos-sampler/kp_sampler_skip.cpp:295-315 | an end is passed on, under the child's id, if and only if the child has a callback for it and has not been told that kernel's end |
| Sampling.Transparent | common/kokkos-sampler/kp_sampler_skip.cpp:268-411 | in every run, whatever ids ends are called with, the child sees each forwarded kernel begin once and end at most once, under its own id |
| Sampling.CountedApart | common/kokkos-sampler/kp_sampler_skip.cpp:268-390 | how many kernels of a construct are forwarded depends on the draws of that construct alone |
| Sampling.WhichBegins | common/kokkos-sampler/kp_sampler_skip.cpp:268-390 | for every begin of every run: the child is told of it, with its name and under its id, exactly if its number within its construct and its draw say so, and otherwise never hears of that id |
| Sampling.ToldIff | common/kokkos-sampler/kp_sampler_skip.cpp:271-289 | for every percentage and skip: the child is told of a begin if and only if it has a callback for it, the begin's number is a multiple of the skip, and 100 times its draw is less than the percentage times the largest draw |
| Sampling.ZeroTellsNothing | common/kokkos-sampler/kp_sampler_skip.cpp:218-224 | zero percent forwards nothing |
| Sampling.HigherTellsMore | common/kokkos-sampler/kp_sampler_skip.cpp:273-274 | a higher percentage forwards at least what a lower one does |
| Sampling.AsAsked | common/kokkos-sampler/kp_sampler_skip.cpp:205-261 | from the environment to what is forwarded: a probability decides whatever the skip, a skip alone forwards every begin after so many, and with neither a tenth of the draws is forwarded |
| Sampling.EverySkipth | common/kokkos-sampler/kp_sampler_skip.cpp:268-293 | in skip mode the begins forwarded are those numbered k, 2k and so on, whatever other constructs do, unless their draw was the largest possible |
| Sampling.Periodic | common/kokkos-sampler/kp_sampler_skip.cpp:268-293 | their number is the quotient of all begins by the skip, less those dropped |
| Sampling.FullSampling | common/kokkos-sampler/kp_sampler_skip.cpp:273-274 | of every single begin and of their number: full sampling forwards every skip-th begin if and only if no draw at one of them was the largest possible |
| Sampling.LargestDrawDropped | common/kokkos-sampler/kp_sampler_skip.cpp:274 | a kernel dropped at 100 percent |
| SamplerTool.SamplerLibrary.BeginParallel | common/kokkos-sampler/kp_sampler_skip.cpp:268-293 | one step of the sampler: id, count of the construct, and forwarding |
| SamplerTool.SamplerLibrary.EndParallel | common/kokkos-sampler/kp_sampler_skip.cpp:295-315 | one step of the sampler: the child's own id is handed back and forgotten |
| SampledStack.StartInStep | common/kokkos-sampler/kp_sampler_skip.cpp:268-293 | forwarding a begin, or not, keeps the child's frame the path of the sampled kernels running, and a forwarded one begins a frame of its kind and name |
| SampledStack.StopInStep | common/kokkos-sampler/kp_sampler_skip.cpp:295-315 | so does an end |
| SampledStack.ChildNeverAborts | profiling/space-time-stack/kp_space_time_stack.cpp:758-767 | behind the sampler, on any well-nested application and any draws, the frame check of the space-time-stack never fires |

## Left out

- RankReduction.ReduceOverMpi: asks that its collectives let it end, which `Communication.RankEnds` provides on every run of ranks; a negative length or root, which no rank sends, is read as zero.
- Shutdown.ShutDownOverMpi: rank 0 prints; the memory snapshots that follow are modelled in `Snapshot` alone.
- States.State.EndFrame: asks for a frame; after the root itself has been popped the source follows a null pointer, which `Profile` has as a state of its own.
- States.State.Allocate: the ledger is a value inside the profiler's state, as the source copies it by assignment; the asserts about null pointers and duplicates are taken as compiled out.
- KernelTimer.KernelPerformanceInfo.WriteToBinaryFile: names whose record length does not fit 32 bits are excluded, because the source then writes outside its buffer.
- KernelTimer.KernelPerformanceInfo.ReadFromFile: a record too short for its fields is reported, where the source reads past its buffer; the object is one just constructed with the default type, as both readers do it.
- MemoryEvents.Spaces.AllocateData: more than 16 spaces and names of 64 characters or more are excluded, because the source then writes outside its tables.
- MemoryEvents.Spaces.DeallocateData: the same; the event log and the process's resident size are not modelled.
- SampledStack.ChildNeverAborts: assumes that the child tool has all end callbacks, as the space-time-stack does; names reach the child's tree without demangling.
- Sampling.ProbabilityWins: a skip of the largest 32-bit integer, to which the source cannot add one, is excluded.
- Sampling.WhichBegins: asks for a skip that is not zero, because the source divides by it at the first begin.
- SamplerTool.SamplerLibrary.BeginParallel: one method stands for the three begin callbacks, which differ only in the construct; the same for the ends. Verbosity, fences and seeding are not modelled.
- Counters that grow by one per event (calls, kernel calls, the sampler's ids and counts) do not wrap.
- A node's largest and average time and start time are zero before they are first set; the source leaves them uninitialised.
- The JSON branch of the destructor and all JSON emitters; number formatting of the text reports.
- Imbalance, kernels per second and the kind tag of a printed line, which are read off single nodes.
- The text of an allocation snapshot, its 0.1 percent filter and `get_full_name`; the text is a parameter of its delivery.
- `print_process_hwm`: three plain reductions to rank 0.
- KernelTimer.ReaderSums: the sort is any rearrangement of the list; the table the reader prints is not modelled.
- Environment parsing, loading of child libraries, opening of files, missing files, command lines.
- Live timing in the kernel timer, which attributes time correctly only without nesting.
- The vendor connectors, kernel filter, chrome tracing, kernel logger, memory usage and the energy tools.
- Floating-point rounding.
