/** The ledger of live allocations in one memory space and its high-water mark, on values. */
module HighWater {
  import opened Sums
  import opened Words

  /** What tells allocations apart; address 0 is the null pointer. */
  datatype Block = Block(ptr: nat, size: nat)

  /** What is remembered about an allocation: its label and the path of the frame it was made in. */
  datatype Info<F> = Info(name: string, frame: F)

  datatype Ledger<F> = Ledger(totalSize: nat, live: map<Block, Info<F>>)

  datatype Event<F> =
    | Allocate(name: string, block: Block, frame: F)
    | Deallocate(block: Block)

  /** An allocation whose block is already live is not entered again, but its size is still added. */
  function Allocated<F>(l: Ledger<F>, name: string, b: Block, frame: F): Ledger<F> {
    if b.ptr == 0 then l
    else Ledger((l.totalSize + b.size) % WORD64, if b in l.live then l.live else l.live[b := Info(name, frame)])
  }

  /** A block that is not live is reported and otherwise ignored. */
  function Deallocated<F>(l: Ledger<F>, b: Block): Ledger<F> {
    if b.ptr == 0 || b !in l.live then l
    else Ledger((l.totalSize - b.size) % WORD64, l.live - {b})
  }

  datatype Tracker<F> = Tracker(current: Ledger<F>, hwm: Ledger<F>)

  function Step<F>(t: Tracker<F>, e: Event<F>): Tracker<F> {
    match e
    case Allocate(name, b, frame) =>
      var current := Allocated(t.current, name, b, frame);
      Tracker(current, if current.totalSize > t.hwm.totalSize then current else t.hwm)
    case Deallocate(b) => t.(current := Deallocated(t.current, b))
  }

  ghost function Track<F>(es: seq<Event<F>>): Tracker<F> {
    if es == [] then Tracker(Ledger(0, map[]), Ledger(0, map[]))
    else Step(Track(es[..|es| - 1]), es[|es| - 1])
  }

  // ---- The reference ----

  ghost function SizeOf(): Block -> int {
    (b: Block) => b.size
  }

  ghost function Bytes<F>(l: Ledger<F>): int {
    Sum(l.live.Keys, SizeOf())
  }

  /** The bytes in live allocations after a run. */
  ghost function LiveBytes<F>(es: seq<Event<F>>): int {
    Bytes(Track(es).current)
  }

  /** The last event about the block is its allocation. */
  ghost predicate StillAllocated<F>(es: seq<Event<F>>, b: Block) {
    es != [] &&
    var e := es[|es| - 1];
    if e.block == b && b.ptr != 0 then e.Allocate? else StillAllocated(es[..|es| - 1], b)
  }

  /** The live set holds exactly the blocks allocated and not freed since. */
  lemma {:induction false} LiveIsAllocated<F>(es: seq<Event<F>>, b: Block)
    ensures b in Track(es).current.live <==> StillAllocated(es, b)
    ensures b in Track(es).current.live ==> b.ptr != 0
  {
    if es != [] {
      LiveIsAllocated(es[..|es| - 1], b);
    }
  }

  /** The label and frame of the allocation that a live block dates from: the last one that found it not live. */
  ghost function DatesFrom<F>(es: seq<Event<F>>, b: Block): Info<F>
    requires StillAllocated(es, b)
    decreases |es|
  {
    var pre, e := es[..|es| - 1], es[|es| - 1];
    if StillAllocated(pre, b) then DatesFrom(pre, b) else Info(e.name, e.frame)
  }

  /** A live block is remembered with the label and the frame of its allocation. */
  lemma {:induction false} LiveInfo<F>(es: seq<Event<F>>, b: Block)
    requires StillAllocated(es, b)
    ensures b in Track(es).current.live && Track(es).current.live[b] == DatesFrom(es, b)
    decreases |es|
  {
    var pre := es[..|es| - 1];
    LiveIsAllocated(pre, b);
    if StillAllocated(pre, b) {
      LiveInfo(pre, b);
    }
  }

  /** Bytes added again for blocks that were live already. */
  ghost function Duplicated<F>(es: seq<Event<F>>): nat {
    if es == [] then 0 else
      var pre, e := es[..|es| - 1], es[|es| - 1];
      Duplicated(pre) + if e.Allocate? && e.block in Track(pre).current.live then e.block.size else 0
  }

  lemma AllocatedBytes<F>(l: Ledger<F>, name: string, b: Block, frame: F, extra: nat)
    requires l.totalSize == (Bytes(l) + extra) % WORD64
    ensures var l' := Allocated(l, name, b, frame);
      l'.totalSize == (Bytes(l') + extra + if b.ptr != 0 && b in l.live then b.size else 0) % WORD64
  {
    if b.ptr != 0 {
      AddWord(Bytes(l) + extra, b.size);
      if b !in l.live {
        var l' := Allocated(l, name, b, frame);
        assert l'.live.Keys == l.live.Keys + {b} && l'.live.Keys - {b} == l.live.Keys;
        SumPick(l'.live.Keys, SizeOf(), b);
      }
    }
  }

  lemma DeallocatedBytes<F>(l: Ledger<F>, b: Block, extra: nat)
    requires l.totalSize == (Bytes(l) + extra) % WORD64
    ensures Deallocated(l, b).totalSize == (Bytes(Deallocated(l, b)) + extra) % WORD64
    ensures Bytes(Deallocated(l, b)) <= Bytes(l)
  {
    if b.ptr != 0 && b in l.live {
      var size: int := b.size;
      AddWord(Bytes(l) + extra, -size);
      assert Deallocated(l, b).live.Keys == l.live.Keys - {b};
      SumPick(l.live.Keys, SizeOf(), b);
    }
  }

  /** The total is the live bytes plus what duplicates added, in 64-bit arithmetic. */
  lemma {:induction false} TotalIsLive<F>(es: seq<Event<F>>)
    ensures Track(es).current.totalSize == (LiveBytes(es) + Duplicated(es)) % WORD64
  {
    hide Allocated, Deallocated;
    if es != [] {
      var pre, e := es[..|es| - 1], es[|es| - 1];
      TotalIsLive(pre);
      LiveIsAllocated(pre, e.block);
      if e.Allocate? {
        AllocatedBytes(Track(pre).current, e.name, e.block, e.frame, Duplicated(pre));
      } else {
        DeallocatedBytes(Track(pre).current, e.block, Duplicated(pre));
      }
    }
  }

  /** No block is allocated while it is live, and what is live always fits a 64-bit word. */
  ghost predicate WellBehaved<F>(es: seq<Event<F>>) {
    Duplicated(es) == 0 && forall i :: 0 <= i <= |es| ==> LiveBytes(es[..i]) < WORD64
  }

  lemma {:induction false} DuplicatedGrows<F>(es: seq<Event<F>>, i: nat)
    requires i <= |es|
    ensures Duplicated(es[..i]) <= Duplicated(es)
  {
    if i < |es| {
      DuplicatedGrows(es[..|es| - 1], i);
      assert es[..|es| - 1][..i] == es[..i];
    } else {
      assert es[..i] == es;
    }
  }

  lemma BytesNotNegative<F>(es: seq<Event<F>>)
    ensures 0 <= LiveBytes(es)
  {
    SumNonNegative(Track(es).current.live.Keys, SizeOf());
  }

  /** On a well-behaved run the total is exactly the live bytes, at every moment. */
  lemma ExactTotal<F>(es: seq<Event<F>>, i: nat)
    requires WellBehaved(es) && i <= |es|
    ensures Track(es[..i]).current.totalSize == LiveBytes(es[..i])
  {
    TotalIsLive(es[..i]);
    DuplicatedGrows(es, i);
    BytesNotNegative(es[..i]);
  }

  ghost function TotalAfter<F>(es: seq<Event<F>>, i: nat): nat
    requires i <= |es|
  {
    Track(es[..i]).current.totalSize
  }

  /** `i` is the first moment of the run at which the total was as high as it ever got. */
  ghost predicate FirstPeak<F>(es: seq<Event<F>>, i: nat) {
    && i <= |es|
    && (forall j :: 0 <= j <= |es| ==> TotalAfter(es, j) <= TotalAfter(es, i))
    && (forall j :: 0 <= j < i ==> TotalAfter(es, j) < TotalAfter(es, i))
  }

  /** The snapshot is the ledger at the first peak, although it is only compared on allocation. */
  lemma {:induction false} SnapshotAtFirstPeak<F>(es: seq<Event<F>>) returns (i: nat)
    requires WellBehaved(es)
    ensures FirstPeak(es, i) && Track(es).hwm == Track(es[..i]).current
  {
    if es == [] {
      i := 0;
    } else {
      var pre, e := es[..|es| - 1], es[|es| - 1];
      forall j | 0 <= j <= |pre| ensures pre[..j] == es[..j] {
      }
      DuplicatedGrows(es, |pre|);
      i := SnapshotAtFirstPeak(pre);
      assert es[..|es|] == es && es[..|pre|] == pre;
      forall j | 0 <= j <= |pre| ensures TotalAfter(pre, j) == TotalAfter(es, j) {
      }
      if e.Allocate? && Track(es).current.totalSize > Track(pre).hwm.totalSize {
        i := |es|;
      } else if e.Deallocate? {
        ExactTotal(es, |pre|);
        ExactTotal(es, |es|);
        FreeLowers(pre, e);
        assert TotalAfter(es, |es|) <= TotalAfter(es, |pre|);
      }
      forall j | 0 <= j <= |es| ensures TotalAfter(es, j) <= TotalAfter(es, i) {
        if j < |es| { assert TotalAfter(pre, j) == TotalAfter(es, j); }
      }
    }
  }

  lemma FreeLowers<F>(pre: seq<Event<F>>, e: Event<F>)
    requires e.Deallocate?
    ensures LiveBytes(pre + [e]) <= LiveBytes(pre)
  {
    assert (pre + [e])[..|pre|] == pre;
    var keys := Track(pre).current.live.Keys;
    if e.block in keys && e.block.ptr != 0 {
      assert Track(pre + [e]).current.live.Keys == keys - {e.block};
      SumPick(keys, SizeOf(), e.block);
    }
  }
}
