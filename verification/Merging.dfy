/** Merging the records of many files by name. */
module Merging {
  import opened KernelRecord
  import opened Words

  /** The scan for an entry with this name: the first one, or -1. */
  function FindIndex(es: seq<Kernel>, name: Bytes): (i: int)
    ensures -1 <= i < |es|
    ensures i >= 0 ==> es[i].name == name && forall j :: 0 <= j < i ==> es[j].name != name
    ensures i == -1 ==> forall j :: 0 <= j < |es| ==> es[j].name != name
  {
    if es == [] then -1
    else
      var i := FindIndex(es[..|es| - 1], name);
      if i >= 0 then i else if es[|es| - 1].name == name then |es| - 1 else -1
  }

  function Square(x: real): real {
    x * x
  }

  /** An entry takes over another record of the same name; the square of its whole time is added. */
  function AddTo(e: Kernel, k: Kernel): Kernel {
    e.(time := e.time + k.time, timeSq := e.timeSq + Square(k.time), callCount := (e.callCount + k.callCount) % WORD64)
  }

  function Merge(es: seq<Kernel>, k: Kernel): seq<Kernel> {
    if k.name == [] then es
    else
      var i := FindIndex(es, k.name);
      if i > -1 then es[i := AddTo(es[i], k)] else es + [k]
  }

  function MergeAll(es: seq<Kernel>, ks: seq<Kernel>): seq<Kernel> {
    if ks == [] then es else Merge(MergeAll(es, ks[..|ks| - 1]), ks[|ks| - 1])
  }

  /** Merging file after file is merging all their records. */
  lemma {:induction false} MergeConcat(es: seq<Kernel>, a: seq<Kernel>, b: seq<Kernel>)
    ensures MergeAll(MergeAll(es, a), b) == MergeAll(es, a + b)
    decreases |b|
  {
    if b == [] {
      assert a + b == a;
    } else {
      MergeConcat(es, a, b[..|b| - 1]);
      assert (a + b)[..|a + b| - 1] == a + b[..|b| - 1];
    }
  }

  ghost predicate NamedOnce(es: seq<Kernel>) {
    && (forall i :: 0 <= i < |es| ==> es[i].name != [])
    && (forall i, j :: 0 <= i < j < |es| ==> es[i].name != es[j].name)
  }

  // ---- What the merged list holds ----

  /** Sums over the records with one name, the order of the records aside. */
  ghost function TimeOf(ks: seq<Kernel>, name: Bytes): real {
    if ks == [] then 0.0 else
      var k := ks[|ks| - 1];
      TimeOf(ks[..|ks| - 1], name) + if k.name == name then k.time else 0.0
  }

  ghost function CallsOf(ks: seq<Kernel>, name: Bytes): nat {
    if ks == [] then 0 else
      var k := ks[|ks| - 1];
      CallsOf(ks[..|ks| - 1], name) + if k.name == name then k.callCount else 0
  }

  ghost function SquaresOf(ks: seq<Kernel>, name: Bytes): real {
    if ks == [] then 0.0 else
      var k := ks[|ks| - 1];
      SquaresOf(ks[..|ks| - 1], name) + if k.name == name then Square(k.time) else 0.0
  }

  /** The first record with a name: it decides the entry's kernel type. */
  ghost function FirstOf(ks: seq<Kernel>, name: Bytes): (k: Kernel)
    requires exists i :: 0 <= i < |ks| && ks[i].name == name
    ensures k in ks && k.name == name
  {
    if ks[0].name == name then ks[0]
    else
      assert exists i :: 0 <= i < |ks[1..]| && ks[1..][i].name == name by {
        var i :| 0 <= i < |ks| && ks[i].name == name;
        assert ks[1..][i - 1].name == name;
      }
      FirstOf(ks[1..], name)
  }

  ghost predicate Mentioned(ks: seq<Kernel>, name: Bytes) {
    exists i :: 0 <= i < |ks| && ks[i].name == name
  }

  /** The entry of a name holds the sums over the records read with that name. */
  ghost predicate Holds1(e: Kernel, ks: seq<Kernel>) {
    && Mentioned(ks, e.name)
    && var first := FirstOf(ks, e.name);
    && e.time == TimeOf(ks, e.name)
    && e.callCount == CallsOf(ks, e.name) % WORD64
    && e.kType == first.kType
    && e.timeSq == first.timeSq + SquaresOf(ks, e.name) - Square(first.time)
  }

  ghost predicate Summary(es: seq<Kernel>, ks: seq<Kernel>) {
    && NamedOnce(es)
    && (forall i :: 0 <= i < |es| ==> Holds1(es[i], ks))
    && (forall name :: name != [] && Mentioned(ks, name) ==> FindIndex(es, name) >= 0)
  }

  lemma MentionedGrows(ks: seq<Kernel>, k: Kernel, name: Bytes)
    ensures Mentioned(ks + [k], name) <==> Mentioned(ks, name) || k.name == name
  {
    if i :| 0 <= i < |ks| && ks[i].name == name { assert (ks + [k])[i].name == name; }
    if k.name == name { assert (ks + [k])[|ks|].name == name; }
    if i :| 0 <= i < |ks + [k]| && (ks + [k])[i].name == name {
      if i < |ks| { assert ks[i].name == name; }
    }
  }

  lemma {:induction false} FirstStays(ks: seq<Kernel>, k: Kernel, name: Bytes)
    requires Mentioned(ks, name)
    ensures Mentioned(ks + [k], name) && FirstOf(ks + [k], name) == FirstOf(ks, name)
    decreases |ks|
  {
    MentionedGrows(ks, k, name);
    assert (ks + [k])[0] == ks[0];
    if ks[0].name != name {
      var i :| 0 <= i < |ks| && ks[i].name == name;
      assert ks[1..][i - 1].name == name;
      FirstStays(ks[1..], k, name);
      assert (ks + [k])[1..] == ks[1..] + [k];
    }
  }

  lemma {:induction false} FirstIsNew(ks: seq<Kernel>, k: Kernel)
    requires !Mentioned(ks, k.name)
    ensures Mentioned(ks + [k], k.name) && FirstOf(ks + [k], k.name) == k
    ensures TimeOf(ks, k.name) == 0.0 && CallsOf(ks, k.name) == 0 && SquaresOf(ks, k.name) == 0.0
    decreases |ks|
  {
    MentionedGrows(ks, k, k.name);
    if ks != [] {
      assert ks[0].name != k.name;
      assert (ks + [k])[0] == ks[0];
      NotMentionedTail(ks, k.name);
      FirstIsNew(ks[1..], k);
      assert (ks + [k])[1..] == ks[1..] + [k];
    }
    NothingOf(ks, k.name);
  }

  lemma MentionedInPart(ks: seq<Kernel>, lo: nat, hi: nat, name: Bytes)
    requires lo <= hi <= |ks|
    ensures Mentioned(ks[lo..hi], name) ==> Mentioned(ks, name)
  {
    if Mentioned(ks[lo..hi], name) {
      var part := ks[lo..hi];
      var i :| 0 <= i < |part| && part[i].name == name;
      assert ks[lo + i].name == name;
    }
  }

  lemma NotMentionedTail(ks: seq<Kernel>, name: Bytes)
    requires ks != [] && !Mentioned(ks, name)
    ensures !Mentioned(ks[1..], name) && !Mentioned(ks[..|ks| - 1], name) && ks[|ks| - 1].name != name
  {
    MentionedInPart(ks, 1, |ks|, name);
    MentionedInPart(ks, 0, |ks| - 1, name);
    assert ks[|ks| - 1].name == name ==> Mentioned(ks, name);
  }

  lemma {:induction false} NothingOf(ks: seq<Kernel>, name: Bytes)
    requires !Mentioned(ks, name)
    ensures TimeOf(ks, name) == 0.0 && CallsOf(ks, name) == 0 && SquaresOf(ks, name) == 0.0
  {
    if ks != [] {
      NotMentionedTail(ks, name);
      NothingOf(ks[..|ks| - 1], name);
    }
  }

  /** An entry not touched by the next record still holds its sums. */
  lemma HoldsOther(e: Kernel, ks: seq<Kernel>, k: Kernel)
    requires Holds1(e, ks) && e.name != k.name
    ensures Holds1(e, ks + [k])
  {
    FirstStays(ks, k, e.name);
    assert (ks + [k])[..|ks|] == ks;
  }

  lemma HoldsAdded(e: Kernel, ks: seq<Kernel>, k: Kernel)
    requires Holds1(e, ks) && e.name == k.name
    ensures Holds1(AddTo(e, k), ks + [k])
  {
    FirstStays(ks, k, e.name);
    assert (ks + [k])[..|ks|] == ks;
    AddWord(CallsOf(ks, e.name), k.callCount);
  }

  lemma HoldsNew(ks: seq<Kernel>, k: Kernel)
    requires !Mentioned(ks, k.name) && k.callCount < WORD64
    ensures Holds1(k, ks + [k])
  {
    FirstIsNew(ks, k);
    assert (ks + [k])[..|ks|] == ks;
  }

  lemma MergeSummary(es: seq<Kernel>, ks: seq<Kernel>, k: Kernel)
    requires Summary(es, ks) && k.callCount < WORD64
    ensures Summary(Merge(es, k), ks + [k])
  {
    hide Holds1;
    var es' := Merge(es, k);
    forall i | 0 <= i < |es'| ensures Holds1(es'[i], ks + [k]) {
      if i < |es| && es[i].name != k.name {
        HoldsOther(es[i], ks, k);
      } else if i < |es| {
        HoldsAdded(es[i], ks, k);
      } else {
        HoldsNew(ks, k);
      }
    }
    forall name | name != [] && Mentioned(ks + [k], name) ensures FindIndex(es', name) >= 0 {
      MentionedGrows(ks, k, name);
      var i := FindIndex(es, name);
      assert i >= 0 ==> es'[i].name == name;
      assert name == k.name && i == -1 ==> es'[|es|].name == name;
    }
  }

  ghost predicate Counted(ks: seq<Kernel>) {
    forall i :: 0 <= i < |ks| ==> ks[i].callCount < WORD64
  }

  /** The merged list names every name once, and each entry holds the sums over the records with its name. */
  lemma {:induction false} MergedSummary(ks: seq<Kernel>)
    requires Counted(ks)
    ensures Summary(MergeAll([], ks), ks)
    decreases |ks|
  {
    if ks != [] {
      MergedSummary(ks[..|ks| - 1]);
      assert ks[..|ks| - 1] + [ks[|ks| - 1]] == ks;
      MergeSummary(MergeAll([], ks[..|ks| - 1]), ks[..|ks| - 1], ks[|ks| - 1]);
    }
  }

  // ---- The order of files and records does not matter ----

  /** The time in all records that have a name. */
  ghost function NamedTime(ks: seq<Kernel>): real {
    if ks == [] then 0.0 else
      var k := ks[|ks| - 1];
      NamedTime(ks[..|ks| - 1]) + if k.name != [] then k.time else 0.0
  }

  function Without<T>(ks: seq<T>, i: nat): seq<T>
    requires i < |ks|
  {
    ks[..i] + ks[i + 1..]
  }

  lemma Appended(ks: seq<Kernel>, k: Kernel, name: Bytes)
    ensures TimeOf(ks + [k], name) == TimeOf(ks, name) + if k.name == name then k.time else 0.0
    ensures CallsOf(ks + [k], name) == CallsOf(ks, name) + if k.name == name then k.callCount else 0
    ensures NamedTime(ks + [k]) == NamedTime(ks) + if k.name != [] then k.time else 0.0
  {
    assert (ks + [k])[..|ks|] == ks;
  }

  lemma {:induction false} TakeOut(ks: seq<Kernel>, i: nat, name: Bytes)
    requires i < |ks|
    ensures TimeOf(ks, name) == TimeOf(Without(ks, i), name) + if ks[i].name == name then ks[i].time else 0.0
    ensures CallsOf(ks, name) == CallsOf(Without(ks, i), name) + if ks[i].name == name then ks[i].callCount else 0
    ensures NamedTime(ks) == NamedTime(Without(ks, i)) + if ks[i].name != [] then ks[i].time else 0.0
    decreases |ks|
  {
    hide TimeOf, CallsOf, NamedTime;
    var pre, k := ks[..|ks| - 1], ks[|ks| - 1];
    assert ks == pre + [k];
    Appended(pre, k, name);
    if i == |pre| {
      assert Without(ks, i) == pre;
    } else {
      TakeOut(pre, i, name);
      assert Without(ks, i) == Without(pre, i) + [k];
      Appended(Without(pre, i), k, name);
    }
  }

  lemma WithoutBag<T>(ks: seq<T>, i: nat)
    requires i < |ks|
    ensures multiset(ks) == multiset(Without(ks, i)) + multiset{ks[i]}
  {
    assert ks == ks[..i] + [ks[i]] + ks[i + 1..];
  }

  /** Per-name sums are the same for any two arrangements of the same records. */
  lemma {:induction false} SumsOfPermutation(a: seq<Kernel>, b: seq<Kernel>, name: Bytes)
    requires multiset(a) == multiset(b)
    ensures TimeOf(a, name) == TimeOf(b, name) && CallsOf(a, name) == CallsOf(b, name)
    ensures NamedTime(a) == NamedTime(b)
    decreases |a|
  {
    hide TimeOf, CallsOf, NamedTime, Without;
    if a == [] {
      assert |multiset(b)| == 0;
      assert a == b;
    } else {
      var n := |a| - 1;
      assert a[n] in multiset(b);
      var i :| 0 <= i < |b| && b[i] == a[n];
      WithoutBag(a, n);
      WithoutBag(b, i);
      assert multiset(Without(a, n)) == multiset(a) - multiset{a[n]};
      assert multiset(Without(b, i)) == multiset(b) - multiset{b[i]};
      Shorter(a, n);
      SumsOfPermutation(Without(a, n), Without(b, i), name);
      TakeOut(a, n, name);
      TakeOut(b, i, name);
    }
  }

  lemma Shorter<T>(ks: seq<T>, i: nat)
    requires i < |ks|
    ensures |Without(ks, i)| == |ks| - 1
  {
  }

  lemma SameMentions(a: seq<Kernel>, b: seq<Kernel>, name: Bytes)
    requires multiset(a) == multiset(b)
    ensures Mentioned(a, name) ==> Mentioned(b, name)
  {
    if i :| 0 <= i < |a| && a[i].name == name {
      assert a[i] in multiset(b);
      var j :| 0 <= j < |b| && b[j] == a[i];
    }
  }

  /** Whatever the order of the files and of the records in them, the same names are listed, each with
      the same time and call count. */
  lemma OrderIrrelevant(a: seq<Kernel>, b: seq<Kernel>, name: Bytes)
    requires multiset(a) == multiset(b) && Counted(a) && Counted(b)
    ensures var i, j := FindIndex(MergeAll([], a), name), FindIndex(MergeAll([], b), name);
      && (i >= 0 <==> j >= 0)
      && (i >= 0 ==>
            && MergeAll([], a)[i].time == MergeAll([], b)[j].time == TimeOf(a, name)
            && MergeAll([], a)[i].callCount == MergeAll([], b)[j].callCount == CallsOf(a, name) % WORD64)
  {
    MergedSummary(a);
    MergedSummary(b);
    SumsOfPermutation(a, b, name);
    SameMentions(a, b, name);
    SameMentions(b, a, name);
    var i, j := FindIndex(MergeAll([], a), name), FindIndex(MergeAll([], b), name);
    assert i >= 0 ==> Holds1(MergeAll([], a)[i], a);
    assert j >= 0 ==> Holds1(MergeAll([], b)[j], b);
  }

  lemma {:induction false} NamedTimeUpdate(es: seq<Kernel>, i: nat, k: Kernel)
    requires i < |es| && es[i].name != []
    ensures NamedTime(es[i := AddTo(es[i], k)]) == NamedTime(es) + k.time
  {
    var n := |es| - 1;
    if i == n {
      assert es[i := AddTo(es[i], k)][..n] == es[..n];
    } else {
      NamedTimeUpdate(es[..n], i, k);
      assert es[i := AddTo(es[i], k)][..n] == es[..n][i := AddTo(es[i], k)];
    }
  }

  /** Merging moves time between entries but neither adds nor loses any. */
  lemma {:induction false} GrandTotal(ks: seq<Kernel>)
    requires Counted(ks)
    ensures NamedTime(MergeAll([], ks)) == NamedTime(ks)
    decreases |ks|
  {
    if ks != [] {
      var pre, k := ks[..|ks| - 1], ks[|ks| - 1];
      var es := MergeAll([], pre);
      GrandTotal(pre);
      MergedSummary(pre);
      var i := FindIndex(es, k.name);
      if k.name != [] && i > -1 {
        NamedTimeUpdate(es, i, k);
      } else if k.name != [] {
        assert (es + [k])[..|es|] == es;
      }
    }
  }

  // ---- The sum of squares ----

  ghost function TimeSqOf(ks: seq<Kernel>, name: Bytes): real {
    if ks == [] then 0.0 else
      var k := ks[|ks| - 1];
      TimeSqOf(ks[..|ks| - 1], name) + if k.name == name then k.timeSq else 0.0
  }

  /** By how much the squares of the whole times of the later records of a name exceed their sums of squares. */
  ghost function LaterExcess(ks: seq<Kernel>, name: Bytes): real {
    if ks == [] then 0.0 else
      var pre, k := ks[..|ks| - 1], ks[|ks| - 1];
      LaterExcess(pre, name) + if k.name == name && Mentioned(pre, name) then Square(k.time) - k.timeSq else 0.0
  }

  /** The squares of a record's call times sum to no more than the square of their sum. */
  ghost predicate Plausible(ks: seq<Kernel>) {
    forall i :: 0 <= i < |ks| ==> ks[i].timeSq <= Square(ks[i].time)
  }

  /** Every record of a name but the first has the square of its time as its sum of squares, as after one call. */
  ghost predicate LaterSingle(ks: seq<Kernel>, name: Bytes) {
    forall i, j :: 0 <= i < j < |ks| && ks[i].name == name && ks[j].name == name ==> ks[j].timeSq == Square(ks[j].time)
  }

  lemma {:induction false} ExcessIs(ks: seq<Kernel>, name: Bytes)
    requires Mentioned(ks, name)
    ensures var first := FirstOf(ks, name);
      LaterExcess(ks, name) == SquaresOf(ks, name) - Square(first.time) - (TimeSqOf(ks, name) - first.timeSq)
    decreases |ks|
  {
    NotEmpty(ks, name);
    hide Square, Mentioned, FirstOf;
    var pre, k := ks[..|ks| - 1], ks[|ks| - 1];
    assert pre + [k] == ks;
    MentionedGrows(pre, k, name);
    if Mentioned(pre, name) {
      ExcessIs(pre, name);
      FirstStays(pre, k, name);
    } else {
      FirstIsNew(pre, k);
      NoTimeSq(pre, name);
      NoExcess(pre, name);
    }
  }

  lemma {:induction false} ExcessNone(ks: seq<Kernel>, name: Bytes)
    requires Plausible(ks)
    ensures 0.0 <= LaterExcess(ks, name)
    ensures LaterExcess(ks, name) == 0.0 <==> LaterSingle(ks, name)
    decreases |ks|
  {
    hide Square, Mentioned, LaterSingle;
    if ks == [] {
      OnlyLast(ks, name);
    } else {
      var pre, k := ks[..|ks| - 1], ks[|ks| - 1];
      assert pre + [k] == ks;
      ExcessNone(pre, name);
      if Mentioned(pre, name) {
        LaterStep(pre, k, name);
      } else {
        NoExcess(pre, name);
        OnlyLast(ks, name);
      }
    }
  }

  lemma {:induction false} NoExcess(ks: seq<Kernel>, name: Bytes)
    requires !Mentioned(ks, name)
    ensures LaterExcess(ks, name) == 0.0
  {
    if ks != [] {
      NotMentionedTail(ks, name);
      NoExcess(ks[..|ks| - 1], name);
    }
  }

  lemma NotEmpty(ks: seq<Kernel>, name: Bytes)
    requires Mentioned(ks, name)
    ensures ks != []
  {
  }

  lemma OnlyLast(ks: seq<Kernel>, name: Bytes)
    requires ks == [] || !Mentioned(ks[..|ks| - 1], name)
    ensures LaterSingle(ks, name)
  {
    if ks != [] {
      var pre := ks[..|ks| - 1];
      assert forall i :: 0 <= i < |pre| ==> ks[i] == pre[i] && pre[i].name != name;
    }
  }

  lemma LaterStep(pre: seq<Kernel>, k: Kernel, name: Bytes)
    requires Mentioned(pre, name)
    ensures LaterSingle(pre + [k], name) <==> LaterSingle(pre, name) && (k.name == name ==> k.timeSq == Square(k.time))
  {
    var ks := pre + [k];
    var i :| 0 <= i < |pre| && pre[i].name == name;
    assert ks[i].name == name && ks[|pre|] == k;
    assert forall j :: 0 <= j < |pre| ==> ks[j] == pre[j];
  }

  lemma {:induction false} NoTimeSq(ks: seq<Kernel>, name: Bytes)
    requires !Mentioned(ks, name)
    ensures TimeSqOf(ks, name) == 0.0
  {
    if ks != [] {
      NotMentionedTail(ks, name);
      NoTimeSq(ks[..|ks| - 1], name);
    }
  }

  /** Merging adds the square of a record's whole time, not its sum of squares. The merged sum of squares
      is the sum over the records exactly when that makes no difference over the later records of the name;
      for times that are not negative, exactly when all of those look like single calls. */
  lemma TimeSqKept(ks: seq<Kernel>, name: Bytes)
    requires Counted(ks) && name != [] && Mentioned(ks, name)
    ensures var i := FindIndex(MergeAll([], ks), name);
      i >= 0 && MergeAll([], ks)[i].timeSq == TimeSqOf(ks, name) + LaterExcess(ks, name)
    ensures Plausible(ks) ==> (LaterExcess(ks, name) == 0.0 <==> LaterSingle(ks, name))
  {
    MergedSummary(ks);
    ExcessIs(ks, name);
    if Plausible(ks) {
      ExcessNone(ks, name);
    }
    var i := FindIndex(MergeAll([], ks), name);
    assert Holds1(MergeAll([], ks)[i], ks);
  }

  /** Two files with one kernel each, called twice for one second: the merged sum of squares is 6, not 4. */
  lemma TimeSqLost()
    ensures var k := Kernel([65], 2, 2.0, 2.0, ParallelFor);
      |MergeAll([], [k, k])| == 1 && MergeAll([], [k, k])[0].timeSq == 6.0 && TimeSqOf([k, k], [65]) == 4.0
  {
    var k := Kernel([65], 2, 2.0, 2.0, ParallelFor);
    assert [k, k][..1] == [k] && [k][..0] == [];
    assert MergeAll([], [k]) == [k];
    assert MergeAll([], [k, k]) == Merge([k], k);
    assert FindIndex([k], [65]) == 0;
    assert TimeSqOf([k], [65]) == 2.0;
  }
}
