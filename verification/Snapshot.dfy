/** Which rank's high-water snapshot is printed, and how its text reaches rank 0. */
module Snapshot {
  import opened Mpi

  // ---- Election ----

  ghost function Candidates(totals: seq<int>): seq<int>
    requires totals != []
  {
    seq(|totals|, r requires 0 <= r < |totals| => if totals[r] == MaxInts(totals) then r else |totals|)
  }

  /** Two reductions: the largest total, then the smallest rank that has it. */
  ghost function Elected(totals: seq<int>): (e: nat)
    requires totals != []
    ensures e < |totals|
  {
    SomeCandidate(totals);
    MinInts(Candidates(totals))
  }

  lemma SomeCandidate(totals: seq<int>)
    requires totals != []
    ensures 0 <= MinInts(Candidates(totals)) < |totals|
  {
    var i :| 0 <= i < |totals| && totals[i] == MaxInts(totals);
    assert Candidates(totals)[i] == i;
  }

  /** Exactly the lowest rank with the largest total is elected. */
  lemma LowestOfTheLargest(totals: seq<int>, r: nat)
    requires totals != [] && r < |totals|
    ensures r == Elected(totals) <==>
      (forall i :: 0 <= i < |totals| ==> totals[i] <= totals[r]) && (forall i :: 0 <= i < r ==> totals[i] < totals[r])
  {
    var c, m := Candidates(totals), MaxInts(totals);
    var i :| 0 <= i < |totals| && totals[i] == m;
    assert c[i] == i;
    var e := Elected(totals);
    var j :| 0 <= j < |totals| && c[j] == e;
    assert e == j && totals[e] == m;
    forall k | 0 <= k < e ensures totals[k] < m {
      assert e <= c[k];
    }
  }

  // ---- Delivery ----

  datatype Message = Size(n: int) | Body(text: string)

  datatype Slot = Empty | Posted | Arrived(m: Message)

  /** Where a rank is in the exchange; ranks that are neither the sender nor rank 0 pass through. */
  datatype Step =
    | PostSize        // rank 0: receive the size, without waiting
    | SendSize        // sender: send the size
    | SizeSent        // sender: the send has been started
    | WaitSize        // rank 0: wait for the size, make room, receive the text without waiting
    | SendBody        // sender: send the text
    | BodySent        // sender: the send has been started
    | WaitBody        // rank 0: wait for the text, and print it
    | Finished

  datatype Process = Process(step: Step, stringSize: int, s: string)

  /** `channel`: messages from the sender to rank 0 that no receive has taken yet, oldest first.
      `slot`: rank 0's outstanding receive. */
  datatype World = World(procs: seq<Process>, sender: nat, slot: Slot, channel: seq<Message>, printed: seq<string>)

  predicate Valid(w: World) {
    0 <= w.sender < |w.procs|
  }

  datatype Action = Move(rank: nat) | Match

  /** A started send may complete once its message has been taken. An `eager` send, which the library
      may or may not choose, completes at once. */
  predicate Enabled(w: World, a: Action, eager: bool)
    requires Valid(w)
  {
    match a
    case Match => w.slot.Posted? && w.channel != []
    case Move(r) =>
      r < |w.procs| &&
      match w.procs[r].step
      case SizeSent => r != w.sender || eager || w.channel == []
      case BodySent => r != w.sender || eager || w.channel == []
      case WaitSize => r != 0 || w.slot.Arrived?
      case WaitBody => r != 0 || w.slot.Arrived?
      case Finished => false
      case _ => true
  }

  function Advance(w: World, r: nat, p: Process): World
    requires r < |w.procs|
  {
    w.(procs := w.procs[r := p])
  }

  function Resize(s: string, n: int): string {
    if n <= |s| then if n < 0 then "" else s[..n]
    else s + seq(n - |s|, i => '\0')
  }

  function Apply(w: World, a: Action): World
    requires Valid(w) && (a.Move? ==> a.rank < |w.procs|) && (a.Match? ==> w.channel != [])
  {
    match a
    case Match => w.(slot := Arrived(w.channel[0]), channel := w.channel[1..])
    case Move(r) =>
      var p := w.procs[r];
      match p.step
      case PostSize => Advance(w, r, p.(step := SendSize)).(slot := if r == 0 then Posted else w.slot)
      case SendSize =>
        if r == w.sender then
          Advance(w, r, p.(step := SizeSent, stringSize := |p.s|)).(channel := w.channel + [Size(|p.s|)])
        else Advance(w, r, p.(step := SizeSent))
      case SizeSent => Advance(w, r, p.(step := WaitSize))
      case WaitSize =>
        if r == 0 && w.slot.Arrived? then
          var n := if w.slot.m.Size? then w.slot.m.n else p.stringSize;
          Advance(w, r, p.(step := SendBody, stringSize := n, s := Resize(p.s, n))).(slot := Posted)
        else Advance(w, r, p.(step := SendBody))
      case SendBody =>
        if r == w.sender then
          Advance(w, r, p.(step := BodySent)).(channel := w.channel + [Body(p.s)])
        else Advance(w, r, p.(step := BodySent))
      case BodySent => Advance(w, r, p.(step := WaitBody))
      case WaitBody =>
        if r == 0 && w.slot.Arrived? then
          var s := if w.slot.m.Body? then w.slot.m.text else p.s;
          Advance(w, r, p.(step := Finished, s := s)).(slot := Empty, printed := w.printed + [s])
        else Advance(w, r, p.(step := Finished))
      case Finished => w
  }

  /** Only the elected rank has a text to begin with. */
  function Initial(n: nat, sender: nat, text: string): World
    requires sender < n
  {
    World(seq(n, r => Process(PostSize, 0, if r == sender then text else "")), sender, Empty, [], [])
  }

  /** A run: any interleaving, with each send eager or not. */
  ghost predicate Run(w: World, actions: seq<(Action, bool)>, w': World)
    decreases |actions|
  {
    if actions == [] then w' == w
    else Valid(w) && Enabled(w, actions[0].0, actions[0].1) && Run(Apply(w, actions[0].0), actions[1..], w')
  }

  // ---- The invariant ----

  function Order(s: Step): nat {
    match s
    case PostSize => 0
    case SendSize => 1
    case SizeSent => 2
    case WaitSize => 3
    case SendBody => 4
    case BodySent => 5
    case WaitBody => 6
    case Finished => 7
  }

  function Messages(text: string): seq<Message> {
    [Size(|text|), Body(text)]
  }

  /** How many messages the sender has sent, and how many receives rank 0 has posted and completed. */
  function Sent(s: Step): nat {
    if Order(s) <= 1 then 0 else if Order(s) <= 4 then 1 else 2
  }

  function PostedCount(s: Step): nat {
    if Order(s) == 0 then 0 else if Order(s) <= 3 then 1 else 2
  }

  function Completed(s: Step): nat {
    if Order(s) <= 3 then 0 else if Order(s) <= 6 then 1 else 2
  }

  /** `m` messages have been taken so far, each by the receive meant for it. */
  ghost predicate Consistent(w: World, text: string, m: nat) {
    && Valid(w)
    && var zero, sender := w.procs[0], w.procs[w.sender];
    && Completed(zero.step) <= m <= Sent(sender.step)
    && m <= PostedCount(zero.step)
    && w.channel == Messages(text)[m..Sent(sender.step)]
    && sender.s == text
    && w.slot == (if PostedCount(zero.step) == Completed(zero.step) then Empty
                  else if m == Completed(zero.step) then Posted
                  else Arrived(Messages(text)[m - 1]))
    && (Completed(zero.step) >= 1 ==> zero.stringSize == |text|)
    && w.printed == if zero.step.Finished? then [text] else []
  }

  lemma StartConsistent(n: nat, sender: nat, text: string)
    requires sender < n
    ensures Consistent(Initial(n, sender, text), text, 0)
  {
  }

  lemma MatchConsistent(w: World, text: string, m: nat)
    requires Consistent(w, text, m) && Enabled(w, Match, false)
    ensures Consistent(Apply(w, Match), text, m + 1)
  {
    assert m < Sent(w.procs[w.sender].step);
    assert Messages(text)[m..Sent(w.procs[w.sender].step)][1..] == Messages(text)[m + 1..Sent(w.procs[w.sender].step)];
  }

  lemma ResizeSame(s: string, n: int)
    requires n == |s|
    ensures Resize(s, n) == s
  {
    assert s[..n] == s;
  }

  predicate IsReceive(s: Step) {
    s.PostSize? || s.WaitSize? || s.WaitBody?
  }

  lemma ReceiveConsistent(w: World, text: string, m: nat, r: nat, eager: bool)
    requires Consistent(w, text, m) && Enabled(w, Move(r), eager) && IsReceive(w.procs[r].step)
    ensures Consistent(Apply(w, Move(r)), text, m)
  {
    hide Resize;
    if r == 0 && w.procs[r].step.WaitSize? {
      ResizeSame(text, |text|);
    }
  }

  predicate IsSend(s: Step) {
    s.SendSize? || s.SendBody?
  }

  lemma SendConsistent(w: World, text: string, m: nat, r: nat, eager: bool)
    requires Consistent(w, text, m) && Enabled(w, Move(r), eager) && IsSend(w.procs[r].step)
    ensures Consistent(Apply(w, Move(r)), text, m)
  {
    hide Resize;
    if r == w.sender && w.procs[r].step.SendSize? {
      assert Messages(text)[0..1] == Messages(text)[0..0] + [Size(|text|)];
    }
    if r == w.sender && w.procs[r].step.SendBody? {
      assert Messages(text)[m..2] == Messages(text)[m..1] + [Body(text)];
    }
  }

  lemma SentConsistent(w: World, text: string, m: nat, r: nat, eager: bool)
    requires Consistent(w, text, m) && Enabled(w, Move(r), eager)
    requires !IsSend(w.procs[r].step) && !IsReceive(w.procs[r].step)
    ensures Consistent(Apply(w, Move(r)), text, m)
  {
    hide Resize;
  }

  /** Any move of any rank keeps the invariant: in particular the size is received as the size and the
      text as the text, with room for all of it. */
  lemma MoveConsistent(w: World, text: string, m: nat, r: nat, eager: bool)
    requires Consistent(w, text, m) && Enabled(w, Move(r), eager)
    ensures Consistent(Apply(w, Move(r)), text, m)
  {
    hide Consistent, Apply;
    if IsReceive(w.procs[r].step) {
      ReceiveConsistent(w, text, m, r, eager);
    } else if !IsSend(w.procs[r].step) {
      SentConsistent(w, text, m, r, eager);
    } else {
      SendConsistent(w, text, m, r, eager);
    }
  }

  /** How far the ranks have come, all together. */
  ghost function Progress(w: World): int {
    SumInts(Orders(w))
  }

  ghost function Orders(w: World): seq<int> {
    seq(|w.procs|, r requires 0 <= r < |w.procs| => Order(w.procs[r].step))
  }

  lemma {:induction false} SumOneMore(a: seq<int>, b: seq<int>, i: nat)
    requires i < |a| == |b| && b == a[i := a[i] + 1]
    ensures SumInts(b) == SumInts(a) + 1
  {
    if i == |a| - 1 {
      assert a[..|a| - 1] == b[..|b| - 1];
    } else {
      assert b[..|b| - 1] == a[..|a| - 1][i := a[i] + 1];
      SumOneMore(a[..|a| - 1], b[..|b| - 1], i);
    }
  }

  lemma MoveProgress(w: World, r: nat, eager: bool)
    requires Valid(w) && Enabled(w, Move(r), eager)
    ensures Progress(Apply(w, Move(r))) == Progress(w) + 1
  {
    var w' := Apply(w, Move(r));
    assert Order(w'.procs[r].step) == Order(w.procs[r].step) + 1;
    assert Orders(w') == Orders(w)[r := Orders(w)[r] + 1];
    SumOneMore(Orders(w), Orders(w'), r);
  }

  /** The invariant holds after any run, and every action of the run was either a step of one rank or a match. */
  lemma {:induction false} RunConsistent(w: World, text: string, m: nat, actions: seq<(Action, bool)>, w': World)
    returns (m': nat)
    requires Consistent(w, text, m) && Run(w, actions, w')
    ensures Consistent(w', text, m') && |w'.procs| == |w.procs|
    ensures Progress(w') + m' == Progress(w) + m + |actions|
    decreases |actions|
  {
    hide Consistent, Progress;
    if actions == [] {
      m' := m;
    } else {
      var a := actions[0].0;
      if a.Match? {
        MatchConsistent(w, text, m);
        MatchProgress(w);
        m' := RunConsistent(Apply(w, a), text, m + 1, actions[1..], w');
      } else {
        MoveConsistent(w, text, m, a.rank, actions[0].1);
        MoveProgress(w, a.rank, actions[0].1);
        m' := RunConsistent(Apply(w, a), text, m, actions[1..], w');
      }
    }
  }

  lemma MatchProgress(w: World)
    requires Valid(w) && w.channel != []
    ensures Progress(Apply(w, Match)) == Progress(w)
  {
    assert Orders(Apply(w, Match)) == Orders(w);
  }

  predicate AllFinished(w: World) {
    forall r :: 0 <= r < |w.procs| ==> w.procs[r].step.Finished?
  }

  lemma {:induction false} SomethingEnabled(w: World, text: string, m: nat)
    requires Consistent(w, text, m) && !AllFinished(w)
    ensures exists a :: Enabled(w, a, false)
  {
    var r :| 0 <= r < |w.procs| && !w.procs[r].step.Finished?;
    if Enabled(w, Move(r), false) {
    } else if Enabled(w, Move(0), false) {
    } else if Enabled(w, Move(w.sender), false) {
    } else {
      assert Enabled(w, Match, false);
    }
  }

  /** No interleaving gets stuck before all ranks are through, even if no send is ever eager and even if
      rank 0 sends to itself. */
  lemma NeverStuck(n: nat, sender: nat, text: string, actions: seq<(Action, bool)>, w: World)
    requires sender < n && Run(Initial(n, sender, text), actions, w)
    ensures AllFinished(w) || exists a :: Valid(w) && Enabled(w, a, false)
  {
    StartConsistent(n, sender, text);
    var m := RunConsistent(Initial(n, sender, text), text, 0, actions, w);
    if !AllFinished(w) {
      SomethingEnabled(w, text, m);
    }
  }

  /** When all ranks are through, rank 0 has printed the elected rank's whole text, once. */
  lemma Delivered(n: nat, sender: nat, text: string, actions: seq<(Action, bool)>, w: World)
    requires sender < n && Run(Initial(n, sender, text), actions, w)
    ensures w.printed == [text] || w.printed == []
    ensures AllFinished(w) ==> w.printed == [text] && w.channel == []
  {
    StartConsistent(n, sender, text);
    var m := RunConsistent(Initial(n, sender, text), text, 0, actions, w);
  }

  lemma {:induction false} AtMostSeven(a: seq<int>)
    requires forall i :: 0 <= i < |a| ==> 0 <= a[i] <= 7
    ensures 0 <= SumInts(a) <= 7 * |a|
  {
    if a != [] {
      AtMostSeven(a[..|a| - 1]);
    }
  }

  lemma {:induction false} NoneYet(a: seq<int>)
    requires forall i :: 0 <= i < |a| ==> a[i] == 0
    ensures SumInts(a) == 0
  {
    if a != [] {
      NoneYet(a[..|a| - 1]);
    }
  }

  lemma ProgressRange(w: World)
    ensures 0 <= Progress(w) <= 7 * |w.procs|
  {
    AtMostSeven(Orders(w));
  }

  lemma StartProgress(n: nat, sender: nat, text: string)
    requires sender < n
    ensures Progress(Initial(n, sender, text)) == 0
  {
    NoneYet(Orders(Initial(n, sender, text)));
  }

  lemma TwoMessages(w: World, text: string, m: nat)
    requires Consistent(w, text, m)
    ensures m <= 2
  {
  }

  /** Every run is finite: each rank takes at most seven steps, and two messages are taken. With
      `NeverStuck`, every run that goes on as long as it can delivers the text. */
  lemma RunsAreFinite(n: nat, sender: nat, text: string, actions: seq<(Action, bool)>, w: World)
    requires sender < n && Run(Initial(n, sender, text), actions, w)
    ensures |actions| <= 7 * n + 2
  {
    hide Consistent, Run, Progress;
    StartConsistent(n, sender, text);
    StartProgress(n, sender, text);
    var m := RunConsistent(Initial(n, sender, text), text, 0, actions, w);
    TwoMessages(w, text, m);
    ProgressRange(w);
  }

  /** The whole of it: of all ranks' snapshots, the one of the lowest rank with the largest total is what
      rank 0 prints; nothing gets stuck on the way, and every run is short. */
  lemma {:induction false} LargestPrinted(totals: seq<int>, texts: seq<string>, actions: seq<(Action, bool)>, w: World)
    requires 0 < |totals| == |texts|
    requires Run(Initial(|totals|, Elected(totals), texts[Elected(totals)]), actions, w)
    ensures var e := Elected(totals);
      && (forall i :: 0 <= i < |totals| ==> totals[i] <= totals[e])
      && (forall i :: 0 <= i < e ==> totals[i] < totals[e])
      && (if AllFinished(w) then w.printed == [texts[e]] else exists a :: Valid(w) && Enabled(w, a, false))
    ensures |actions| <= 7 * |totals| + 2
  {
    hide Run, Consistent, Enabled;
    var e := Elected(totals);
    LowestOfTheLargest(totals, e);
    Delivered(|totals|, e, texts[e], actions, w);
    NeverStuck(|totals|, e, texts[e], actions, w);
    RunsAreFinite(|totals|, e, texts[e], actions, w);
  }
}
