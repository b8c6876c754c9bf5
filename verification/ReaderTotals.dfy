/** The reader's totals: what they are in terms of the records read, and when they depend on the order of the files. */
module ReaderTotals {
  import opened KernelRecord
  import opened Merging
  import opened Words

  /** Time and calls in everything but regions. */
  ghost function KernelTime(ks: seq<Kernel>): real {
    if ks == [] then 0.0 else
      var k := ks[|ks| - 1];
      KernelTime(ks[..|ks| - 1]) + if k.kType == Region then 0.0 else k.time
  }

  ghost function KernelCalls(ks: seq<Kernel>): nat {
    if ks == [] then 0 else
      var k := ks[|ks| - 1];
      KernelCalls(ks[..|ks| - 1]) + if k.kType == Region then 0 else k.callCount
  }

  /** Whether a record read after `pre` ends up in the totals: the first record of a name decides for all of them,
      and a record without a name is dropped. */
  ghost predicate Filed(pre: seq<Kernel>, k: Kernel) {
    k.name != [] && (if Mentioned(pre, k.name) then FirstOf(pre, k.name) else k).kType != Region
  }

  ghost function FiledTime(ks: seq<Kernel>): real {
    if ks == [] then 0.0 else
      var pre, k := ks[..|ks| - 1], ks[|ks| - 1];
      FiledTime(pre) + if Filed(pre, k) then k.time else 0.0
  }

  ghost function FiledCalls(ks: seq<Kernel>): nat {
    if ks == [] then 0 else
      var pre, k := ks[..|ks| - 1], ks[|ks| - 1];
      FiledCalls(pre) + if Filed(pre, k) then k.callCount else 0
  }

  // ---- The totals of the merged list ----

  lemma {:induction false} EntryUpdate(es: seq<Kernel>, i: nat, k: Kernel)
    requires i < |es|
    ensures var es' := es[i := AddTo(es[i], k)];
      && KernelTime(es') == KernelTime(es) + (if es[i].kType == Region then 0.0 else k.time)
      && KernelCalls(es') % WORD64 == (KernelCalls(es) + (if es[i].kType == Region then 0 else k.callCount)) % WORD64
  {
    var n := |es| - 1;
    var es' := es[i := AddTo(es[i], k)];
    if i == n {
      assert es'[..n] == es[..n];
      var others, c := KernelCalls(es[..n]), es[n].callCount + k.callCount;
      AddWord(c, others);
    } else {
      EntryUpdate(es[..n], i, k);
      assert es'[..n] == es[..n][i := AddTo(es[i], k)];
      var last := if es[n].kType == Region then 0 else es[n].callCount;
      AddWord(KernelCalls(es'[..n]), last);
      AddWord(KernelCalls(es[..n]) + (if es[i].kType == Region then 0 else k.callCount), last);
    }
  }

  lemma EntryAdded(es: seq<Kernel>, k: Kernel)
    ensures KernelTime(es + [k]) == KernelTime(es) + if k.kType == Region then 0.0 else k.time
    ensures KernelCalls(es + [k]) == KernelCalls(es) + if k.kType == Region then 0 else k.callCount
  {
    assert (es + [k])[..|es|] == es;
  }

  lemma MergeStep(es: seq<Kernel>, pre: seq<Kernel>, k: Kernel)
    requires Summary(es, pre)
    ensures KernelTime(Merge(es, k)) == KernelTime(es) + if Filed(pre, k) then k.time else 0.0
    ensures KernelCalls(Merge(es, k)) % WORD64 == (KernelCalls(es) + if Filed(pre, k) then k.callCount else 0) % WORD64
  {
    hide FirstOf, Mentioned, KernelTime, KernelCalls;
    var i := FindIndex(es, k.name);
    if k.name != [] && i > -1 {
      assert Holds1(es[i], pre);
      EntryUpdate(es, i, k);
    } else if k.name != [] {
      EntryAdded(es, k);
    }
  }

  /** Whatever was read, the reader's totals are those of the records whose name was first read as a kernel's. */
  lemma {:induction false} TotalsAre(ks: seq<Kernel>)
    requires Counted(ks)
    ensures KernelTime(MergeAll([], ks)) == FiledTime(ks)
    ensures KernelCalls(MergeAll([], ks)) % WORD64 == FiledCalls(ks) % WORD64
    decreases |ks|
  {
    hide Filed, Merge, Summary, KernelTime, KernelCalls;
    if ks == [] {
      NoTotals();
    } else {
      var pre, k := ks[..|ks| - 1], ks[|ks| - 1];
      TotalsAre(pre);
      MergedSummary(pre);
      MergeStep(MergeAll([], pre), pre, k);
      var c := if Filed(pre, k) then k.callCount else 0;
      AddWord(KernelCalls(MergeAll([], pre)), c);
      AddWord(FiledCalls(pre), c);
    }
  }

  lemma NoTotals()
    ensures KernelTime([]) == 0.0 && KernelCalls([]) == 0
  {
  }

  // ---- Against the records that are kernels themselves ----

  /** Regions counted because their name was first a kernel's, and kernels not counted. */
  ghost function Gained(ks: seq<Kernel>): real {
    if ks == [] then 0.0 else
      var pre, k := ks[..|ks| - 1], ks[|ks| - 1];
      Gained(pre) + if Filed(pre, k) && k.kType == Region then k.time else 0.0
  }

  ghost function Lost(ks: seq<Kernel>): real {
    if ks == [] then 0.0 else
      var pre, k := ks[..|ks| - 1], ks[|ks| - 1];
      Lost(pre) + if !Filed(pre, k) && k.kType != Region then k.time else 0.0
  }

  /** A name always means a region, or never; and every record has a name. */
  ghost predicate KindsAgree(ks: seq<Kernel>) {
    && (forall i :: 0 <= i < |ks| ==> ks[i].name != [])
    && (forall i, j :: 0 <= i < j < |ks| && ks[i].name == ks[j].name ==>
          (ks[i].kType == Region <==> ks[j].kType == Region))
  }

  lemma {:induction false} GainedLost(ks: seq<Kernel>)
    ensures FiledTime(ks) == KernelTime(ks) + Gained(ks) - Lost(ks)
    ensures KindsAgree(ks) ==> Gained(ks) == Lost(ks) == 0.0 && FiledCalls(ks) == KernelCalls(ks)
  {
    hide Filed, KindsAgree;
    if ks != [] {
      var pre := ks[..|ks| - 1];
      GainedLost(pre);
      if KindsAgree(ks) {
        FiledByKind(ks);
      }
    }
  }

  lemma FiledByKind(ks: seq<Kernel>)
    requires ks != [] && KindsAgree(ks)
    ensures KindsAgree(ks[..|ks| - 1])
    ensures Filed(ks[..|ks| - 1], ks[|ks| - 1]) <==> ks[|ks| - 1].kType != Region
  {
    var pre, k := ks[..|ks| - 1], ks[|ks| - 1];
    if Mentioned(pre, k.name) {
      var i :| 0 <= i < |pre| && pre[i] == FirstOf(pre, k.name);
      assert ks[i] == pre[i];
    }
  }

  /** The reader's kernel time is the time in all records that are not regions exactly when what is gained from
      regions is what is lost from kernels; where every record has a name that always means a region or never
      does, both are zero, and the calls are right as well. */
  lemma KernelTimeKept(ks: seq<Kernel>)
    requires Counted(ks)
    ensures KernelTime(MergeAll([], ks)) == KernelTime(ks) <==> Gained(ks) == Lost(ks)
    ensures KindsAgree(ks) ==> KernelTime(MergeAll([], ks)) == KernelTime(ks)
    ensures KindsAgree(ks) ==> KernelCalls(MergeAll([], ks)) % WORD64 == KernelCalls(ks) % WORD64
  {
    TotalsAre(ks);
    GainedLost(ks);
  }

  // ---- The order of the records ----

  /** Merging the records in any order leaves the same time in all entries together. */
  lemma GrandTotalOrder(a: seq<Kernel>, b: seq<Kernel>)
    requires multiset(a) == multiset(b) && Counted(a) && Counted(b)
    ensures NamedTime(MergeAll([], a)) == NamedTime(MergeAll([], b))
  {
    GrandTotal(a);
    GrandTotal(b);
    SumsOfPermutation(a, b, []);
  }

  /** A region and a kernel of the same name: the total is 0 if the region is read first, and 3 if the kernel is. */
  lemma TotalDependsOnOrder()
    ensures var r, k := Kernel([65], 1, 1.0, 1.0, Region), Kernel([65], 1, 2.0, 4.0, ParallelFor);
      && multiset([r, k]) == multiset([k, r])
      && KernelTime(MergeAll([], [r, k])) == 0.0 && KernelTime(MergeAll([], [k, r])) == 3.0
  {
    var r, k := Kernel([65], 1, 1.0, 1.0, Region), Kernel([65], 1, 2.0, 4.0, ParallelFor);
    TotalsAre([r, k]);
    TotalsAre([k, r]);
    TwoOfAName(r, k);
    TwoOfAName(k, r);
  }

  lemma TwoOfAName(a: Kernel, b: Kernel)
    requires a.name == b.name != []
    ensures FiledTime([a, b]) == (if a.kType == Region then 0.0 else a.time + b.time)
    ensures TimeOf([a, b], a.name) == a.time + b.time
  {
    assert [a, b][..1] == [a] && [a][..0] == [];
    assert [a][0].name == b.name;
    assert FirstOf([a], b.name) == a;
    assert !Filed([], a) <==> a.kType == Region;
    assert FiledTime([a]) == if a.kType == Region then 0.0 else a.time;
    assert TimeOf([a], a.name) == a.time;
  }

  /** The name is read both as a region's and as a kernel's. */
  ghost predicate BothKinds(ks: seq<Kernel>, name: Bytes) {
    exists i, j :: 0 <= i < |ks| && 0 <= j < |ks| && ks[i].name == name == ks[j].name
      && ks[i].kType == Region && ks[j].kType != Region
  }

  ghost predicate OrderFree(ks: seq<Kernel>) {
    forall other :: multiset(other) == multiset(ks) ==> KernelTime(MergeAll([], other)) == KernelTime(MergeAll([], ks))
  }

  ghost predicate NothingMixed(ks: seq<Kernel>) {
    forall name :: name != [] && BothKinds(ks, name) ==> TimeOf(ks, name) == 0.0
  }

  /** The reader's total is the same for every order of the records exactly when every name read with both kinds
      carries no time. */
  lemma OrderFreeIff(ks: seq<Kernel>)
    requires Counted(ks)
    ensures OrderFree(ks) <==> NothingMixed(ks)
  {
    hide KernelTime, MergeAll, BothKinds, TimeOf;
    if NothingMixed(ks) {
      forall other | multiset(other) == multiset(ks)
        ensures KernelTime(MergeAll([], other)) == KernelTime(MergeAll([], ks))
      {
        CountedOrder(ks, other);
        SameTotals(ks, other);
      }
    }
    if OrderFree(ks) {
      forall name | name != [] && BothKinds(ks, name) ensures TimeOf(ks, name) == 0.0 {
        MixedSwap(ks, name);
      }
    }
  }

  lemma CountedOrder(a: seq<Kernel>, b: seq<Kernel>)
    requires multiset(a) == multiset(b) && Counted(a)
    ensures Counted(b)
  {
    forall i | 0 <= i < |b| ensures b[i].callCount < WORD64 {
      assert b[i] in multiset(a);
    }
  }

  // ---- Without mixed names the order does not matter ----

  ghost function Weight(k: Kernel): real {
    if k.kType == Region then 0.0 else k.time
  }

  /** Every entry of `a` is in `b` under its name, with the same weight. */
  ghost predicate Weighed(a: seq<Kernel>, b: seq<Kernel>) {
    && (forall i, j :: 0 <= i < |a| && 0 <= j < |b| && a[i].name == b[j].name ==> Weight(a[i]) == Weight(b[j]))
    && (forall i :: 0 <= i < |a| ==> Mentioned(b, a[i].name))
  }

  lemma {:induction false} TimeWithout(es: seq<Kernel>, j: nat)
    requires j < |es|
    ensures KernelTime(es) == KernelTime(Without(es, j)) + Weight(es[j])
    ensures KernelCalls(es) == KernelCalls(Without(es, j)) + if es[j].kType == Region then 0 else es[j].callCount
    decreases |es|
  {
    hide KernelTime, KernelCalls;
    var pre, k := es[..|es| - 1], es[|es| - 1];
    assert es == pre + [k];
    EntryAdded(pre, k);
    if j == |pre| {
      assert Without(es, j) == pre;
    } else {
      TimeWithout(pre, j);
      assert Without(es, j) == Without(pre, j) + [k];
      EntryAdded(Without(pre, j), k);
    }
  }

  /** Sorting the list changes neither total. */
  lemma {:induction false} SortedTotals(es: seq<Kernel>, sorted: seq<Kernel>)
    requires multiset(es) == multiset(sorted)
    ensures KernelTime(es) == KernelTime(sorted) && KernelCalls(es) == KernelCalls(sorted)
    decreases |es|
  {
    hide KernelTime, KernelCalls, Without, Weight;
    if es == [] {
      assert |multiset(sorted)| == 0;
      assert es == sorted;
    } else {
      var n := |es| - 1;
      assert es[n] in multiset(sorted);
      var j :| 0 <= j < |sorted| && sorted[j] == es[n];
      WithoutBag(es, n);
      WithoutBag(sorted, j);
      assert multiset(Without(es, n)) == multiset(es) - multiset{es[n]};
      assert multiset(Without(sorted, j)) == multiset(sorted) - multiset{sorted[j]};
      Shorter(es, n);
      SortedTotals(Without(es, n), Without(sorted, j));
      TimeWithout(es, n);
      TimeWithout(sorted, j);
    }
  }

  lemma {:induction false} SameWeights(a: seq<Kernel>, b: seq<Kernel>)
    requires NamedOnce(a) && NamedOnce(b) && Weighed(a, b) && Weighed(b, a)
    ensures KernelTime(a) == KernelTime(b)
    decreases |a|
  {
    hide KernelTime, Weight, Mentioned;
    if a == [] {
      assert b != [] ==> Mentioned(a, b[0].name);
      NoneMentioned();
    } else {
      var n := |a| - 1;
      var j := Find(b, a[n].name);
      TimeWithout(a, n);
      TimeWithout(b, j);
      assert Without(a, n) == a[..n];
      TakeBoth(a, b, j);
      SameWeights(a[..n], Without(b, j));
    }
  }

  lemma NoneMentioned()
    ensures forall name :: !Mentioned([], name)
  {
  }

  lemma Find(b: seq<Kernel>, name: Bytes) returns (j: nat)
    requires Mentioned(b, name)
    ensures j < |b| && b[j].name == name
  {
    j :| 0 <= j < |b| && b[j].name == name;
  }

  lemma MentionedWithout(b: seq<Kernel>, j: nat, name: Bytes)
    requires j < |b| && b[j].name != name
    ensures Mentioned(Without(b, j), name) <==> Mentioned(b, name)
  {
    var c := Without(b, j);
    if i :| 0 <= i < |b| && b[i].name == name {
      assert c[if i < j then i else i - 1] == b[i];
    }
    if i :| 0 <= i < |c| && c[i].name == name {
      assert b[if i < j then i else i + 1] == c[i];
    }
  }

  lemma NamedWithout(b: seq<Kernel>, j: nat)
    requires j < |b| && NamedOnce(b)
    ensures NamedOnce(Without(b, j)) && forall i :: 0 <= i < |Without(b, j)| ==>
      Without(b, j)[i] == b[if i < j then i else i + 1] && Without(b, j)[i].name != b[j].name
  {
  }

  lemma TakeBoth(a: seq<Kernel>, b: seq<Kernel>, j: nat)
    requires a != [] && j < |b| && a[|a| - 1].name == b[j].name
    requires NamedOnce(a) && NamedOnce(b) && Weighed(a, b) && Weighed(b, a)
    ensures var a', b' := a[..|a| - 1], Without(b, j);
      NamedOnce(a') && NamedOnce(b') && Weighed(a', b') && Weighed(b', a')
    ensures Weight(a[|a| - 1]) == Weight(b[j])
  {
    hide Weight, Mentioned;
    var n := |a| - 1;
    var a', b' := a[..n], Without(b, j);
    assert a' == Without(a, n);
    NamedWithout(a, n);
    NamedWithout(b, j);
    forall i | 0 <= i < |a'| ensures Mentioned(b', a'[i].name) {
      MentionedWithout(b, j, a'[i].name);
    }
    forall i | 0 <= i < |b'| ensures Mentioned(a', b'[i].name) {
      MentionedWithout(a, n, b'[i].name);
    }
  }

  lemma SameTotals(a: seq<Kernel>, b: seq<Kernel>)
    requires multiset(a) == multiset(b) && Counted(a) && Counted(b) && NothingMixed(a)
    ensures KernelTime(MergeAll([], a)) == KernelTime(MergeAll([], b))
  {
    hide KernelTime;
    MergedSummary(a);
    MergedSummary(b);
    EntriesWeighed(a, b);
    MixedOrder(a, b);
    EntriesWeighed(b, a);
    SameWeights(MergeAll([], a), MergeAll([], b));
  }

  lemma MixedOrder(a: seq<Kernel>, b: seq<Kernel>)
    requires multiset(a) == multiset(b) && NothingMixed(a)
    ensures NothingMixed(b)
  {
    hide TimeOf;
    forall name | name != [] && BothKinds(b, name) ensures TimeOf(b, name) == 0.0 {
      var i, j :| 0 <= i < |b| && 0 <= j < |b| && b[i].name == name == b[j].name
        && b[i].kType == Region && b[j].kType != Region;
      assert b[i] in multiset(a) && b[j] in multiset(a);
      SumsOfPermutation(a, b, name);
    }
  }

  lemma EntriesWeighed(a: seq<Kernel>, b: seq<Kernel>)
    requires multiset(a) == multiset(b) && NothingMixed(a)
    requires Summary(MergeAll([], a), a) && Summary(MergeAll([], b), b)
    ensures Weighed(MergeAll([], a), MergeAll([], b))
  {
    hide MergeAll, FirstOf, TimeOf, Mentioned, NothingMixed;
    var ea, eb := MergeAll([], a), MergeAll([], b);
    forall i, j | 0 <= i < |ea| && 0 <= j < |eb| && ea[i].name == eb[j].name ensures Weight(ea[i]) == Weight(eb[j]) {
      assert Holds1(ea[i], a) && Holds1(eb[j], b);
      EntryWeight(ea[i], a, eb[j], b);
    }
    forall i | 0 <= i < |ea| ensures Mentioned(eb, ea[i].name) {
      assert Holds1(ea[i], a);
      SameMentions(a, b, ea[i].name);
      Indexed(eb, ea[i].name);
    }
  }

  lemma Indexed(es: seq<Kernel>, name: Bytes)
    ensures FindIndex(es, name) >= 0 ==> Mentioned(es, name)
  {
  }

  lemma EntryWeight(e: Kernel, a: seq<Kernel>, f: Kernel, b: seq<Kernel>)
    requires multiset(a) == multiset(b) && NothingMixed(a)
    requires Holds1(e, a) && Holds1(f, b) && e.name == f.name != []
    ensures Weight(e) == Weight(f)
  {
    hide TimeOf, Mentioned;
    var p, q := FirstOf(a, e.name), FirstOf(b, e.name);
    SumsOfPermutation(a, b, e.name);
    assert q in multiset(a);
    var i :| 0 <= i < |a| && a[i] == p;
    var j :| 0 <= j < |a| && a[j] == q;
    if (p.kType == Region) != (q.kType == Region) {
      assert BothKinds(a, e.name);
    }
  }

  // ---- A mixed name that carries time ----

  lemma FirstOfTwo(a: Kernel, b: Kernel, rest: seq<Kernel>, name: Bytes)
    requires a.name == b.name
    ensures Mentioned([a, b] + rest, name) <==> a.name == name || Mentioned(rest, name)
    ensures a.name == name ==> Mentioned([a, b] + rest, name) && FirstOf([a, b] + rest, name) == a
    ensures a.name != name && Mentioned(rest, name) ==>
      Mentioned([a, b] + rest, name) && FirstOf([a, b] + rest, name) == FirstOf(rest, name)
  {
    var ks := [a, b] + rest;
    assert ks[0] == a && ks[1] == b && ks[1..] == [b] + rest && ([b] + rest)[1..] == rest;
    if a.name == name {
      assert ks[0].name == name;
    } else {
      if i :| 0 <= i < |rest| && rest[i].name == name {
        assert ks[i + 2].name == name && ([b] + rest)[i + 1].name == name;
      }
      if i :| 0 <= i < |ks| && ks[i].name == name {
        assert rest[i - 2].name == name;
      }
    }
  }

  lemma FiledAfterTwo(r: Kernel, k: Kernel, rest: seq<Kernel>, x: Kernel)
    requires r.name == k.name != [] && r.kType == Region && k.kType != Region
    ensures x.name == r.name ==> !Filed([r, k] + rest, x) && Filed([k, r] + rest, x)
    ensures x.name != r.name ==> (Filed([r, k] + rest, x) <==> Filed([k, r] + rest, x))
  {
    hide FirstOf, Mentioned;
    FirstOfTwo(r, k, rest, x.name);
    FirstOfTwo(k, r, rest, x.name);
  }

  /** Reading the kernel first counts all the time under the name, reading the region first none of it. */
  lemma {:induction false} SwapDiffers(r: Kernel, k: Kernel, rest: seq<Kernel>)
    requires r.name == k.name != [] && r.kType == Region && k.kType != Region
    ensures FiledTime([k, r] + rest) - FiledTime([r, k] + rest) == TimeOf([r, k] + rest, r.name)
    decreases |rest|
  {
    hide Filed;
    if rest == [] {
      assert [k, r] + rest == [k, r] && [r, k] + rest == [r, k];
      TwoOfAName(r, k);
      TwoOfAName(k, r);
    } else {
      var pre, x := rest[..|rest| - 1], rest[|rest| - 1];
      SwapDiffers(r, k, pre);
      FiledAfterTwo(r, k, pre, x);
      assert ([k, r] + rest)[..|rest| + 1] == [k, r] + pre;
      assert ([r, k] + rest)[..|rest| + 1] == [r, k] + pre;
    }
  }

  lemma TakeTwo(ks: seq<Kernel>, i: nat, j: nat) returns (rest: seq<Kernel>)
    requires i < |ks| && j < |ks| && i != j
    ensures multiset([ks[i], ks[j]] + rest) == multiset(ks) == multiset([ks[j], ks[i]] + rest)
  {
    var once, j' := Without(ks, i), if j < i then j else j - 1;
    assert once[j'] == ks[j];
    hide Without;
    WithoutBag(ks, i);
    WithoutBag(once, j');
    rest := Without(once, j');
  }

  lemma MixedSwap(ks: seq<Kernel>, name: Bytes)
    requires Counted(ks) && OrderFree(ks) && name != [] && BothKinds(ks, name)
    ensures TimeOf(ks, name) == 0.0
  {
    hide KernelTime, MergeAll, FiledTime, TimeOf;
    var i, j :| 0 <= i < |ks| && 0 <= j < |ks| && ks[i].name == name == ks[j].name
      && ks[i].kType == Region && ks[j].kType != Region;
    var rest := TakeTwo(ks, i, j);
    var a, b := [ks[i], ks[j]] + rest, [ks[j], ks[i]] + rest;
    CountedOrder(ks, a);
    CountedOrder(ks, b);
    TotalsAre(a);
    TotalsAre(b);
    SwapDiffers(ks[i], ks[j], rest);
    SumsOfPermutation(ks, a, name);
  }
}
