/** The memory-events tool: a running size per memory space, and its running maximum. */
module MemoryEvents {
  import opened HighWater
  import opened Words
  import Sums

  const MAX_SPACES: nat := 16
  const NAME_LENGTH: nat := 64

  /** One space: its size, and the sizes recorded after each event. */
  datatype Account = Account(size: nat, track: seq<nat>)

  function Added(a: Account, size: nat): Account {
    var s := (a.size + size) % WORD64;
    Account(s, a.track + [s])
  }

  /** A size larger than what the space holds is ignored. */
  function Taken(a: Account, size: nat): Account {
    if a.size >= size then Account(a.size - size, a.track + [a.size - size]) else a
  }

  ghost function AccountIn(names: seq<string>, sizes: seq<nat>, tracks: seq<seq<nat>>, name: string): Account
    requires |names| == |sizes| == |tracks|
  {
    if i :| 0 <= i < |names| && names[i] == name then Account(sizes[i], tracks[i]) else Account(0, [])
  }

  /** A new name at the end of the table with nothing in it changes no account. */
  lemma NewName(names: seq<string>, sizes: seq<nat>, tracks: seq<seq<nat>>, added: string, name: string)
    requires |names| == |sizes| == |tracks| && added !in names
    requires forall i, j :: 0 <= i < j < |names| ==> names[i] != names[j]
    ensures AccountIn(names + [added], sizes + [0], tracks + [[]], name) == AccountIn(names, sizes, tracks, name)
  {
    if i :| 0 <= i < |names| && names[i] == name {
      assert (names + [added])[i] == name;
    } else if name == added {
      assert (names + [added])[|names|] == name;
    }
  }

  class Spaces {
    var spaceName: seq<string>
    var spaceSize: seq<nat>
    var spaceSizeTrack: seq<seq<nat>>

    ghost predicate Valid()
      reads this
    {
      && |spaceName| == |spaceSize| == |spaceSizeTrack| <= MAX_SPACES
      && forall i, j :: 0 <= i < j < |spaceName| ==> spaceName[i] != spaceName[j]
    }

    /** The account of a space; one never seen is empty. */
    ghost function AccountOf(name: string): Account
      requires Valid()
      reads this
    {
      AccountIn(spaceName, spaceSize, spaceSizeTrack, name)
    }

    constructor ()
      ensures Valid() && spaceName == [] && forall name :: AccountOf(name) == Account(0, [])
    {
      spaceName, spaceSize, spaceSizeTrack := [], [], [];
    }

    lemma AccountAt(i: nat)
      requires Valid() && i < |spaceName|
      ensures AccountOf(spaceName[i]) == Account(spaceSize[i], spaceSizeTrack[i])
    {
    }

    /** Finds the space by name, entering it if it is new. The table holds 16 names of up to 63 characters. */
    method SpaceIndex(name: string) returns (spaceI: nat)
      requires Valid() && |name| < NAME_LENGTH
      requires |spaceName| < MAX_SPACES || name in spaceName
      modifies this
      ensures Valid() && spaceI < |spaceName| && spaceName[spaceI] == name
      ensures forall n :: AccountOf(n) == old(AccountOf(n))
    {
      spaceI := |spaceName|;
      var s := 0;
      while s < |spaceName|
        invariant 0 <= s <= |spaceName|
        invariant spaceI == |spaceName| ==> name !in spaceName[..s]
        invariant spaceI != |spaceName| ==> spaceI < s && spaceName[spaceI] == name
      {
        if spaceName[s] == name { spaceI := s; }
        s := s + 1;
      }
      if spaceI == |spaceName| {
        assert spaceName[..|spaceName|] == spaceName;
        spaceName, spaceSize, spaceSizeTrack := spaceName + [name], spaceSize + [0], spaceSizeTrack + [[]];
        forall n ensures AccountOf(n) == old(AccountOf(n)) {
          NewName(old(spaceName), old(spaceSize), old(spaceSizeTrack), name, n);
        }
      }
    }

    method Record(i: nat, a: Account)
      requires Valid() && i < |spaceName|
      modifies this
      ensures Valid() && spaceName == old(spaceName) && AccountOf(spaceName[i]) == a
      ensures forall n :: n != spaceName[i] ==> AccountOf(n) == old(AccountOf(n))
    {
      spaceSize, spaceSizeTrack := spaceSize[i := a.size], spaceSizeTrack[i := a.track];
      AccountAt(i);
    }

    method AllocateData(space: string, size: nat)
      requires Valid() && |space| < NAME_LENGTH && (|spaceName| < MAX_SPACES || space in spaceName)
      modifies this
      ensures Valid() && AccountOf(space) == Added(old(AccountOf(space)), size)
      ensures forall n :: n != space ==> AccountOf(n) == old(AccountOf(n))
    {
      var i := SpaceIndex(space);
      AccountAt(i);
      var s := (spaceSize[i] + size) % WORD64;
      Record(i, Account(s, spaceSizeTrack[i] + [s]));
    }

    method DeallocateData(space: string, size: nat)
      requires Valid() && |space| < NAME_LENGTH && (|spaceName| < MAX_SPACES || space in spaceName)
      modifies this
      ensures Valid() && AccountOf(space) == Taken(old(AccountOf(space)), size)
      ensures forall n :: n != space ==> AccountOf(n) == old(AccountOf(n))
    {
      var i := SpaceIndex(space);
      AccountAt(i);
      if spaceSize[i] >= size {
        var s := spaceSize[i] - size;
        Record(i, Account(s, spaceSizeTrack[i] + [s]));
      }
    }
  }

  // ---- The running maximum ----

  function Highest(track: seq<nat>): (m: nat)
    ensures forall i :: 0 <= i < |track| ==> track[i] <= m
    ensures m == 0 || m in track
  {
    if track == [] then 0 else
      var m := Highest(track[..|track| - 1]);
      if track[|track| - 1] > m then track[|track| - 1] else m
  }

  /** The column of high-water values written at the end: at each line the maximum so far. */
  method HighWaterColumn(track: seq<nat>) returns (column: seq<nat>)
    ensures |column| == |track|
    ensures forall i :: 0 <= i < |track| ==> column[i] == Highest(track[..i + 1])
  {
    var maxvalue := 0;
    column := [];
    for i := 0 to |track|
      invariant |column| == i && maxvalue == Highest(track[..i])
      invariant forall j :: 0 <= j < i ==> column[j] == Highest(track[..j + 1])
    {
      assert track[..i + 1][..i] == track[..i];
      if track[i] > maxvalue {
        maxvalue := track[i];
      }
      column := column + [maxvalue];
    }
  }

  // ---- Agreement with the space-time-stack ----

  /** The account of a space after the events of a run that concern it. */
  ghost function AccountAfter<F>(es: seq<Event<F>>): Account {
    if es == [] then Account(0, []) else
      var a, e := AccountAfter(es[..|es| - 1]), es[|es| - 1];
      if e.Allocate? then Added(a, e.block.size) else Taken(a, e.block.size)
  }

  // ---- What is recorded ----

  /** The bytes in the space after these events: a free of more than there is leaves it as it is. */
  ghost function SizeAfter<F>(es: seq<Event<F>>): nat {
    if es == [] then 0 else
      var before, e := SizeAfter(es[..|es| - 1]), es[|es| - 1];
      if e.Allocate? then (before + e.block.size) % WORD64
      else if e.block.size > before then before
      else before - e.block.size
  }

  /** The last event is a free of more than there is. */
  ghost predicate Refused<F>(es: seq<Event<F>>)
    requires es != []
  {
    es[|es| - 1].Deallocate? && es[|es| - 1].block.size > SizeAfter(es[..|es| - 1])
  }

  /** After how many events each line is recorded: after every one that is not refused. */
  ghost function Recorded<F>(es: seq<Event<F>>): seq<nat> {
    if es == [] then [] else Recorded(es[..|es| - 1]) + if Refused(es) then [] else [|es|]
  }

  /** These are the moments after the events that are not refused, all of them, in order. */
  lemma {:induction false} RecordedAre<F>(es: seq<Event<F>>)
    ensures forall i :: 0 <= i < |Recorded(es)| ==> 0 < Recorded(es)[i] <= |es|
    ensures forall i, j :: 0 <= i < j < |Recorded(es)| ==> Recorded(es)[i] < Recorded(es)[j]
    ensures forall n :: 0 < n <= |es| ==> (n in Recorded(es) <==> !Refused(es[..n]))
  {
    if es != [] {
      var pre := es[..|es| - 1];
      RecordedAre(pre);
      assert es[..|es|] == es;
      forall n | 0 < n <= |es| ensures n in Recorded(es) <==> !Refused(es[..n]) {
        assert n < |es| ==> pre[..n] == es[..n];
      }
    }
  }

  /** The lines of a space hold its size after every event that is not refused, in order, frees included. */
  lemma {:induction false} TrackIs<F>(es: seq<Event<F>>)
    ensures AccountAfter(es).size == SizeAfter(es)
    ensures |AccountAfter(es).track| == |Recorded(es)|
    ensures forall i :: 0 <= i < |Recorded(es)| ==>
      0 < Recorded(es)[i] <= |es| && AccountAfter(es).track[i] == SizeAfter(es[..Recorded(es)[i]])
    ensures var a := AccountAfter(es); a.size == if a.track == [] then 0 else a.track[|a.track| - 1]
  {
    if es != [] {
      var pre := es[..|es| - 1];
      TrackIs(pre);
      assert es[..|es|] == es;
      forall i | 0 <= i < |Recorded(pre)| ensures pre[..Recorded(pre)[i]] == es[..Recorded(pre)[i]] {
      }
    }
  }

  /** Where the tools agree and nothing is refused, line `i` is the space-time-stack's total after event `i`. */
  lemma {:induction false} LinesAreTotals<F>(es: seq<Event<F>>)
    requires AgreeUpTo(es) && forall n :: 0 < n <= |es| ==> !Refused(es[..n])
    ensures |AccountAfter(es).track| == |es|
    ensures forall i :: 0 <= i < |es| ==> AccountAfter(es).track[i] == Track(es[..i + 1]).current.totalSize
  {
    hide Track, AccountAfter, SizeAfter;
    TrackIs(es);
    EveryMoment(es);
    forall i | 0 <= i < |es| ensures AccountAfter(es).track[i] == Track(es[..i + 1]).current.totalSize {
      TrackIs(es[..i + 1]);
      assert SameSize(es[..i + 1]);
    }
  }

  lemma {:induction false} EveryMoment<F>(es: seq<Event<F>>)
    requires forall n :: 0 < n <= |es| ==> !Refused(es[..n])
    ensures |Recorded(es)| == |es| && forall i :: 0 <= i < |es| ==> Recorded(es)[i] == i + 1
  {
    if es != [] {
      var pre := es[..|es| - 1];
      assert es[..|es|] == es;
      forall n | 0 < n <= |pre| ensures !Refused(pre[..n]) { assert pre[..n] == es[..n]; }
      EveryMoment(pre);
    }
  }

  /** An event both tools count alike: a null pointer comes with size zero, a freed block is live and no
      larger than the total, and the size of a block that is not live is zero or larger than the total. */
  ghost predicate CountedAlike<F>(l: Ledger<F>, e: Event<F>) {
    if e.Allocate? then e.block.ptr != 0 || e.block.size == 0
    else if e.block.ptr != 0 && e.block in l.live then e.block.size <= l.totalSize
    else e.block.size == 0 || e.block.size > l.totalSize
  }

  ghost predicate WordSized<F>(es: seq<Event<F>>) {
    forall i :: 0 <= i < |es| ==> es[i].block.size < WORD64
  }

  ghost predicate SameSize<F>(es: seq<Event<F>>) {
    AccountAfter(es).size == Track(es).current.totalSize
  }

  ghost predicate AgreeUpTo<F>(es: seq<Event<F>>) {
    forall i :: 0 <= i <= |es| ==> SameSize(es[..i])
  }

  ghost predicate AllCountedAlike<F>(es: seq<Event<F>>) {
    forall i :: 0 <= i < |es| ==> CountedAlike(Track(es[..i]).current, es[i])
  }

  lemma Push<F>(es: seq<Event<F>>, i: nat)
    requires es != [] && i < |es|
    ensures es[..|es| - 1][..i] == es[..i]
  {
  }

  lemma {:induction false} InRange<F>(es: seq<Event<F>>)
    ensures Track(es).current.totalSize < WORD64
  {
    if es != [] { InRange(es[..|es| - 1]); }
  }

  lemma WordShift(total: nat, size: nat)
    requires total < WORD64 && size < WORD64
    ensures (total + size) % WORD64 == total <==> size == 0
    ensures size <= total ==> (total - size) % WORD64 == total - size
    ensures size > total ==> (total - size) % WORD64 == total - size + WORD64
  {
    if total + size >= WORD64 {
      assert (total + size) % WORD64 == total + size - WORD64;
    }
    if size > total {
      assert (total - size) % WORD64 == (total - size + WORD64) % WORD64;
    }
  }

  lemma StepAlike<F>(es: seq<Event<F>>)
    requires es != [] && es[|es| - 1].block.size < WORD64
    requires AccountAfter(es[..|es| - 1]).size == Track(es[..|es| - 1]).current.totalSize
    ensures AccountAfter(es).size == Track(es).current.totalSize
       <==> CountedAlike(Track(es[..|es| - 1]).current, es[|es| - 1])
  {
    var pre, e := es[..|es| - 1], es[|es| - 1];
    InRange(pre);
    LiveIsAllocated(pre, e.block);
    CountStep(AccountAfter(pre), Track(pre), e);
  }

  lemma CountStep<F>(a: Account, t: Tracker<F>, e: Event<F>)
    requires a.size == t.current.totalSize < WORD64 && e.block.size < WORD64
    ensures var a' := if e.Allocate? then Added(a, e.block.size) else Taken(a, e.block.size);
      a'.size == HighWater.Step(t, e).current.totalSize <==> CountedAlike(t.current, e)
  {
    WordShift(a.size, e.block.size);
  }

  /** The two tools show the same size after every event of a run exactly when they count every event alike. */
  lemma {:induction false} ToolsAgree<F>(es: seq<Event<F>>)
    requires WordSized(es)
    ensures AgreeUpTo(es) <==> AllCountedAlike(es)
  {
    hide AgreeUpTo, AllCountedAlike, CountedAlike, AccountAfter, Track;
    if es == [] {
      AlikeAtStart<F>();
    } else {
      var pre := es[..|es| - 1];
      ToolsAgree(pre);
      AgreeSplit(es);
      AlikeSplit(es);
      if AgreeUpTo(pre) {
        AgreeNow(pre);
        StepAlike(es);
      }
    }
  }

  lemma AlikeAtStart<F>()
    ensures AgreeUpTo<F>([]) && AllCountedAlike<F>([])
  {
  }

  lemma AgreeNow<F>(es: seq<Event<F>>)
    requires AgreeUpTo(es)
    ensures AccountAfter(es).size == Track(es).current.totalSize
  {
    assert es[..|es|] == es;
    assert SameSize(es[..|es|]);
  }

  lemma AgreeSplit<F>(es: seq<Event<F>>)
    requires es != []
    ensures AgreeUpTo(es) <==> AgreeUpTo(es[..|es| - 1]) && SameSize(es)
  {
    hide SameSize;
    var pre := es[..|es| - 1];
    assert es[..|es|] == es;
    forall i | 0 <= i < |es| ensures SameSize(pre[..i]) == SameSize(es[..i]) { Push(es, i); }
  }

  lemma AlikeSplit<F>(es: seq<Event<F>>)
    requires es != []
    ensures AllCountedAlike(es) <==>
      AllCountedAlike(es[..|es| - 1]) && CountedAlike(Track(es[..|es| - 1]).current, es[|es| - 1])
  {
    hide CountedAlike, Track;
    var pre := es[..|es| - 1];
    forall i | 0 <= i < |es| ensures pre[..i] == es[..i] { Push(es, i); }
    assert forall i :: 0 <= i < |pre| ==> pre[i] == es[i];
  }

  /** Where they agree, the running maximum ends at the other tool's high-water mark. */
  lemma {:induction false} MaximaAgree<F>(es: seq<Event<F>>)
    requires AgreeUpTo(es)
    ensures Highest(AccountAfter(es).track) == Track(es).hwm.totalSize
  {
    hide AgreeUpTo, SameSize, HighWater.Step, Highest, Added, Taken;
    if es == [] {
      NoLines<F>();
    } else {
      var pre := es[..|es| - 1];
      AgreeSplit(es);
      MaximaAgree(pre);
      AgreeNow(pre);
      AgreeNow(es);
      HwmCovers(pre);
      MaximumStep(AccountAfter(pre), Track(pre), es[|es| - 1]);
    }
  }

  lemma NoLines<F>()
    ensures Highest(AccountAfter<F>([]).track) == Track<F>([]).hwm.totalSize
  {
  }

  lemma MaximumStep<F>(a: Account, t: Tracker<F>, e: Event<F>)
    requires Highest(a.track) == t.hwm.totalSize && t.current.totalSize <= t.hwm.totalSize
    requires a.size == t.current.totalSize
    requires (if e.Allocate? then Added(a, e.block.size) else Taken(a, e.block.size)).size
      == HighWater.Step(t, e).current.totalSize
    ensures Highest((if e.Allocate? then Added(a, e.block.size) else Taken(a, e.block.size)).track)
      == HighWater.Step(t, e).hwm.totalSize
  {
    hide Allocated, Deallocated;
    var b := if e.Allocate? then Added(a, e.block.size) else Taken(a, e.block.size);
    if b.track != a.track {
      assert b.track == a.track + [b.size];
    }
  }

  lemma {:induction false} HwmCovers<F>(es: seq<Event<F>>)
    requires AgreeUpTo(es)
    ensures Track(es).current.totalSize <= Track(es).hwm.totalSize
  {
    if es != [] {
      var pre, e := es[..|es| - 1], es[|es| - 1];
      AgreeSplit(es);
      HwmCovers(pre);
      AgreeNow(pre);
      AgreeNow(es);
    }
  }

  /** Every free matches a live block and every null pointer has size zero. */
  ghost predicate Matching<F>(es: seq<Event<F>>) {
    forall i :: 0 <= i < |es| ==>
      if es[i].block.ptr == 0 then es[i].block.size == 0
      else es[i].Deallocate? ==> es[i].block in Track(es[..i]).current.live
  }

  /** A well-behaved run whose frees all match is counted alike. */
  lemma MatchingAgrees<F>(es: seq<Event<F>>)
    requires WordSized(es) && WellBehaved(es) && Matching(es)
    ensures AgreeUpTo(es) && Highest(AccountAfter(es).track) == Track(es).hwm.totalSize
    ensures |AccountAfter(es).track| == |es|
    ensures forall i :: 0 <= i < |es| ==> AccountAfter(es).track[i] == Track(es[..i + 1]).current.totalSize
  {
    forall i | 0 <= i < |es| ensures CountedAlike(Track(es[..i]).current, es[i]) {
      var l := Track(es[..i]).current;
      ExactTotal(es, i);
      if es[i].block in l.live {
        BlockWithin(l, es[i].block);
      }
    }
    ToolsAgree(es);
    MaximaAgree(es);
    forall n | 0 < n <= |es| ensures !Refused(es[..n]) {
      MatchedNotRefused(es, n);
    }
    LinesAreTotals(es);
  }

  lemma MatchedNotRefused<F>(es: seq<Event<F>>, n: nat)
    requires WellBehaved(es) && Matching(es) && AgreeUpTo(es) && 0 < n <= |es|
    ensures !Refused(es[..n])
  {
    hide SizeAfter, Track, AccountAfter;
    var i, e := n - 1, es[n - 1];
    assert es[..n][..i] == es[..i] && es[..n][i] == e;
    TrackIs(es[..i]);
    assert SameSize(es[..i]);
    ExactTotal(es, i);
    if e.Deallocate? && e.block.ptr != 0 {
      BlockWithin(Track(es[..i]).current, e.block);
    }
  }

  lemma BlockWithin<F>(l: Ledger<F>, b: Block)
    requires b in l.live
    ensures b.size <= Bytes(l)
  {
    Sums.SumNonNegative(l.live.Keys, SizeOf());
    assert SizeOf()(b) == b.size;
  }
}
