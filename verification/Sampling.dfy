/** The sampler on values: which kernels it forwards to its child tool, and under which ids. */
module Sampling {
  import opened Words

  datatype Construct = ForLoop | ScanLoop | ReduceLoop

  /** A draw of `rand()` lies between 0 and this. */
  const RAND_MAX: nat := 2147483647

  datatype Wish<T> = Unset | Set(value: T)

  /** Every how many kernels a sample is taken, how likely it then is in percent, and which callbacks the
      child tool has. With a skip of zero the first begin divides by zero. */
  datatype Setup = Setup(skip: nat, percent: real, begins: set<Construct>, ends: set<Construct>)

  /** What the environment asks for: one more than the skip, as an unsigned 64-bit word. */
  function SkipOf(probability: Wish<real>, skip: Wish<int>): nat {
    if probability.Unset? && skip.Set? then (skip.value + 1) % WORD64 else 1
  }

  function PercentOf(probability: Wish<real>, skip: Wish<int>): real {
    if probability.Set? then
      if probability.value > 100.0 then 100.0 else if probability.value < 0.0 then 0.0 else probability.value
    else if skip.Set? then 100.0
    else 10.0
  }

  predicate IsInt32(i: int) {
    -0x8000_0000 <= i < 0x7fff_ffff
  }

  /** Sampling is periodic only if no probability is set and a skip is; otherwise every kernel is drawn for.
      Only a skip of -1 makes the tool divide by zero; any lower skip becomes an enormous one. */
  lemma ProbabilityWins(probability: Wish<real>, skip: Wish<int>)
    requires skip.Set? ==> IsInt32(skip.value)
    ensures 0.0 <= PercentOf(probability, skip) <= 100.0
    ensures SkipOf(probability, skip) == 0 <==> probability.Unset? && skip == Set(-1)
    ensures SkipOf(probability, skip) > 1 ==> probability.Unset? && PercentOf(probability, skip) == 100.0
    ensures probability.Unset? && skip.Set? && skip.value >= 0 ==> SkipOf(probability, skip) == skip.value + 1
    ensures probability.Unset? && skip.Set? && skip.value < -1 ==> SkipOf(probability, skip) >= WORD64 - 0x8000_0000
    ensures probability.Set? ==> forall other ::
      PercentOf(probability, other) == PercentOf(probability, skip) && SkipOf(probability, other) == 1
  {
    if skip.Set? && skip.value < -1 {
      SameRemainder(skip.value + 1, 1);
    }
  }

  /** What the child tool is told. `origin` is the sampler's own id, which the child does not see. */
  datatype ChildEvent<Id> =
    | ChildBegin(construct: Construct, name: string, origin: nat, id: Id)
    | ChildEnd(construct: Construct, origin: nat, id: Id)

  datatype Sampler<Id> = Sampler(
    uniqID: nat,
    invocationNum: map<Construct, nat>,
    infokIDSample: map<nat, Id>,
    told: seq<ChildEvent<Id>>)

  function Fresh<Id>(): Sampler<Id> {
    Sampler(1, map[ForLoop := 0, ScanLoop := 0, ReduceLoop := 0], map[], [])
  }

  function CountOf<Id>(s: Sampler<Id>, c: Construct): nat {
    if c in s.invocationNum then s.invocationNum[c] else 0
  }

  /** A begin is sampled if its number within its construct is a multiple of the skip and the draw falls
      under the percentage. */
  predicate Sampled(setup: Setup, number: nat, draw: nat)
    requires setup.skip > 0
  {
    number % setup.skip == 0 && draw as real / RAND_MAX as real < setup.percent / 100.0
  }

  /** `childId`: what the child tool answers if it is asked. */
  datatype Event<Id> =
    | Begin(construct: Construct, name: string, draw: nat, childId: Id)
    | End(construct: Construct, kID: nat)

  predicate Forwards<Id>(setup: Setup, s: Sampler<Id>, c: Construct, draw: nat)
    requires setup.skip > 0
  {
    Sampled(setup, CountOf(s, c) + 1, draw) && c in setup.begins
  }

  function Step<Id>(setup: Setup, s: Sampler<Id>, e: Event<Id>): Sampler<Id>
    requires setup.skip > 0
  {
    match e
    case Begin(c, name, draw, childId) =>
      var kID := s.uniqID;
      var counted := s.(uniqID := kID + 1, invocationNum := s.invocationNum[c := CountOf(s, c) + 1]);
      if Forwards(setup, s, c, draw) then
        counted.(told := s.told + [ChildBegin(c, name, kID, childId)],
                 infokIDSample := if kID in s.infokIDSample then s.infokIDSample else s.infokIDSample[kID := childId])
      else counted
    case End(c, kID) =>
      if c in setup.ends && kID in s.infokIDSample then
        s.(told := s.told + [ChildEnd(c, kID, s.infokIDSample[kID])], infokIDSample := s.infokIDSample - {kID})
      else s
  }

  ghost function Run<Id>(setup: Setup, es: seq<Event<Id>>): Sampler<Id>
    requires setup.skip > 0
  {
    if es == [] then Fresh() else Step(setup, Run(setup, es[..|es| - 1]), es[|es| - 1])
  }

  // ---- Every forwarded begin is closed at most once, under the child's own id ----

  /** The kernels the child has been told of and not told the end of, with the ids it gave them. */
  ghost function OpenInChild<Id>(told: seq<ChildEvent<Id>>): map<nat, Id> {
    if told == [] then map[] else
      var open, e := OpenInChild(told[..|told| - 1]), told[|told| - 1];
      if e.ChildBegin? then open[e.origin := e.id] else open - {e.origin}
  }

  ghost predicate BegunBefore<Id>(told: seq<ChildEvent<Id>>, origin: nat) {
    exists i :: 0 <= i < |told| && told[i].ChildBegin? && told[i].origin == origin
  }

  /** No kernel is begun twice, and every end closes a kernel that is open, with the id the child gave it. */
  ghost predicate Proper<Id>(told: seq<ChildEvent<Id>>) {
    told == [] ||
    var pre, e := told[..|told| - 1], told[|told| - 1];
    && Proper(pre)
    && if e.ChildBegin? then !BegunBefore(pre, e.origin)
       else e.origin in OpenInChild(pre) && OpenInChild(pre)[e.origin] == e.id
  }

  ghost predicate Sound<Id>(s: Sampler<Id>) {
    && Proper(s.told)
    && s.infokIDSample == OpenInChild(s.told)
    && (forall i :: 0 <= i < |s.told| ==> s.told[i].origin < s.uniqID)
    && (forall k :: k in s.infokIDSample ==> k < s.uniqID)
  }

  lemma StepSound<Id>(setup: Setup, s: Sampler<Id>, e: Event<Id>)
    requires setup.skip > 0 && Sound(s)
    ensures Sound(Step(setup, s, e))
  {
    hide Sampled;
    var s' := Step(setup, s, e);
    if s'.told != s.told {
      assert s'.told[..|s.told|] == s.told;
    }
  }

  /** In every run, whatever ends are called with whatever ids, the child sees each forwarded kernel begin once
      and end at most once with the child's own id, and the map holds exactly the forwarded kernels still open. */
  lemma {:induction false} Transparent<Id>(setup: Setup, es: seq<Event<Id>>)
    requires setup.skip > 0
    ensures Sound(Run(setup, es))
  {
    if es != [] {
      Transparent(setup, es[..|es| - 1]);
      StepSound(setup, Run(setup, es[..|es| - 1]), es[|es| - 1]);
    }
  }

  // ---- Periodic sampling ----

  /** The draws of the begins of one construct, in order. */
  ghost function Draws<Id>(es: seq<Event<Id>>, c: Construct): seq<nat> {
    if es == [] then [] else
      var pre, e := Draws(es[..|es| - 1], c), es[|es| - 1];
      if e.Begin? && e.construct == c then pre + [e.draw] else pre
  }

  ghost function Forwarded<Id>(told: seq<ChildEvent<Id>>, c: Construct): nat {
    if told == [] then 0 else
      var e := told[|told| - 1];
      Forwarded(told[..|told| - 1], c) + if e.ChildBegin? && e.construct == c then 1 else 0
  }

  /** How many of these draws, numbered from 1, are sampled. */
  ghost function SampledOf(setup: Setup, draws: seq<nat>): nat
    requires setup.skip > 0
  {
    if draws == [] then 0 else
      SampledOf(setup, draws[..|draws| - 1]) + if Sampled(setup, |draws|, draws[|draws| - 1]) then 1 else 0
  }

  lemma StepCounts<Id>(setup: Setup, s: Sampler<Id>, e: Event<Id>, c: Construct)
    requires setup.skip > 0
    ensures var s', mine := Step(setup, s, e), e.Begin? && e.construct == c;
      && CountOf(s', c) == CountOf(s, c) + (if mine then 1 else 0)
      && Forwarded(s'.told, c) == Forwarded(s.told, c) + (if mine && Forwards(setup, s, c, e.draw) then 1 else 0)
  {
    hide Sampled;
    var s' := Step(setup, s, e);
    if s'.told != s.told {
      assert s'.told[..|s.told|] == s.told;
    }
  }

  /** The constructs are counted apart, although they share one sequence of kernel ids. */
  lemma {:induction false} CountedApart<Id>(setup: Setup, es: seq<Event<Id>>, c: Construct)
    requires setup.skip > 0
    ensures CountOf(Run(setup, es), c) == |Draws(es, c)|
    ensures Forwarded(Run(setup, es).told, c) == if c in setup.begins then SampledOf(setup, Draws(es, c)) else 0
  {
    hide Sampled, Step, Forwarded;
    if es == [] {
      NothingForwarded<Id>(c);
    } else {
      var pre, e := es[..|es| - 1], es[|es| - 1];
      CountedApart(setup, pre, c);
      StepCounts(setup, Run(setup, pre), e, c);
      if e.Begin? && e.construct == c {
        assert Draws(es, c)[..|Draws(pre, c)|] == Draws(pre, c);
      }
    }
  }

  lemma NothingForwarded<Id>(c: Construct)
    ensures Forwarded<Id>([], c) == 0
  {
  }

  // ---- Which kernels are forwarded ----

  lemma {:induction false} IdsRise<Id>(setup: Setup, es: seq<Event<Id>>, i: nat)
    requires setup.skip > 0 && i < |es| && es[i].Begin?
    ensures Run(setup, es[..i]).uniqID < Run(setup, es).uniqID
    decreases |es|
  {
    hide Sampled;
    var pre := es[..|es| - 1];
    if i < |pre| {
      assert pre[..i] == es[..i];
      IdsRise(setup, pre, i);
    }
  }

  ghost function BeginsIn<Id>(es: seq<Event<Id>>): nat {
    if es == [] then 0 else BeginsIn(es[..|es| - 1]) + if es[|es| - 1].Begin? then 1 else 0
  }

  /** Ids are handed out one after the other from 1 on, to all constructs together. */
  lemma {:induction false} IdsAre<Id>(setup: Setup, es: seq<Event<Id>>)
    requires setup.skip > 0
    ensures Run(setup, es).uniqID == BeginsIn(es) + 1
  {
    hide Sampled;
    if es != [] {
      IdsAre(setup, es[..|es| - 1]);
    }
  }

  /** An end is passed on if and only if the child has a callback for it and has not been told the kernel's end yet. */
  lemma EndPassedOn<Id>(setup: Setup, es: seq<Event<Id>>, c: Construct, kID: nat)
    requires setup.skip > 0
    ensures var before, after := Run(setup, es).told, Run(setup, es + [End(c, kID)]).told;
      var open := OpenInChild(before);
      after == if c in setup.ends && kID in open then before + [ChildEnd(c, kID, open[kID])] else before
  {
    Transparent(setup, es);
    assert (es + [End(c, kID)])[..|es|] == es;
  }

  /** The begin of a run that event `i` is, as the child would be told of it. */
  ghost function AsTold<Id>(setup: Setup, es: seq<Event<Id>>, i: nat): ChildEvent<Id>
    requires setup.skip > 0 && i < |es| && es[i].Begin?
  {
    ChildBegin(es[i].construct, es[i].name, Run(setup, es[..i]).uniqID, es[i].childId)
  }

  /** The number of event `i` within its construct, counting from 1. */
  ghost function NumberOf<Id>(es: seq<Event<Id>>, i: nat): (n: nat)
    requires i < |es| && es[i].Begin?
    ensures n > 0
  {
    |Draws(es[..i], es[i].construct)| + 1
  }

  /** Of every begin of every run: the child is told of it if it is sampled, under its own number and draw,
      and otherwise never hears of its id. */
  lemma {:induction false} WhichBegins<Id>(setup: Setup, es: seq<Event<Id>>, i: nat)
    requires setup.skip > 0 && i < |es| && es[i].Begin?
    ensures var told, e := Run(setup, es).told, AsTold(setup, es, i);
      if es[i].construct in setup.begins && Sampled(setup, NumberOf(es, i), es[i].draw) then e in told
      else !BegunBefore(told, e.origin)
    decreases |es|
  {
    hide Sampled, Step;
    var pre, last, s := es[..|es| - 1], es[|es| - 1], Run(setup, es[..|es| - 1]);
    var e := AsTold(setup, es, i);
    if i == |pre| {
      assert es[..i] == pre;
      Transparent(setup, pre);
      CountedApart(setup, pre, last.construct);
      NothingYet(s);
      if Forwards(setup, s, last.construct, last.draw) {
        ToldOf(setup, s, last);
      } else {
        StillUnknown(setup, s, last, e.origin);
      }
    } else {
      assert pre[..i] == es[..i];
      WhichBegins(setup, pre, i);
      IdsRise(setup, pre, i);
      StillTold(setup, s, last, e);
      if !BegunBefore(s.told, e.origin) {
        StillUnknown(setup, s, last, e.origin);
      }
    }
  }

  lemma NothingYet<Id>(s: Sampler<Id>)
    requires Sound(s)
    ensures !BegunBefore(s.told, s.uniqID)
  {
  }

  lemma ToldOf<Id>(setup: Setup, s: Sampler<Id>, e: Event<Id>)
    requires setup.skip > 0 && e.Begin? && Forwards(setup, s, e.construct, e.draw)
    ensures ChildBegin(e.construct, e.name, s.uniqID, e.childId) in Step(setup, s, e).told
  {
    hide Forwards;
  }

  lemma StillTold<Id>(setup: Setup, s: Sampler<Id>, e: Event<Id>, told: ChildEvent<Id>)
    requires setup.skip > 0
    ensures told in s.told ==> told in Step(setup, s, e).told
  {
    hide Forwards;
  }

  /** A step tells the child of no other begin than its own. */
  lemma StillUnknown<Id>(setup: Setup, s: Sampler<Id>, e: Event<Id>, origin: nat)
    requires setup.skip > 0 && !BegunBefore(s.told, origin)
    requires e.Begin? && origin == s.uniqID ==> !Forwards(setup, s, e.construct, e.draw)
    ensures !BegunBefore(Step(setup, s, e).told, origin)
  {
    hide Forwards;
    var told := Step(setup, s, e).told;
    forall j | 0 <= j < |told| ensures !(told[j].ChildBegin? && told[j].origin == origin) {
      if j < |s.told| { assert told[j] == s.told[j]; }
    }
  }

  lemma SampledIs(setup: Setup, number: nat, draw: nat)
    requires setup.skip > 0
    ensures Sampled(setup, number, draw) <==>
      number % setup.skip == 0 && 100.0 * draw as real < setup.percent * RAND_MAX as real
  {
    ShareBelow(draw as real, RAND_MAX as real, setup.percent);
  }

  lemma ShareBelow(x: real, y: real, percent: real)
    requires y > 0.0
    ensures x / y < percent / 100.0 <==> 100.0 * x < percent * y
  {
    var share := x / y;
    assert share * y == x;
    if share < percent / 100.0 {
      assert share * y < percent / 100.0 * y;
    } else {
      assert percent / 100.0 * y <= share * y;
    }
  }

  /** The child is told of the begin, with its name and under its id. */
  ghost predicate Told<Id(!new)>(setup: Setup, es: seq<Event<Id>>, i: nat)
    requires setup.skip > 0 && i < |es| && es[i].Begin?
  {
    AsTold(setup, es, i) in Run(setup, es).told
  }

  /** For every percentage: the child is told of a begin if and only if it has a callback for it, the begin's number
      within its construct is a multiple of the skip, and its draw is less than that percentage of the largest. */
  lemma ToldIff<Id(!new)>(setup: Setup, es: seq<Event<Id>>, i: nat)
    requires setup.skip > 0 && i < |es| && es[i].Begin?
    ensures Told(setup, es, i) <==>
      && es[i].construct in setup.begins && NumberOf(es, i) % setup.skip == 0
      && 100.0 * es[i].draw as real < setup.percent * RAND_MAX as real
    ensures Told(setup, es, i) <==> BegunBefore(Run(setup, es).told, AsTold(setup, es, i).origin)
  {
    hide Sampled, Run, NumberOf;
    WhichBegins(setup, es, i);
    SampledIs(setup, NumberOf(es, i), es[i].draw);
  }

  /** Zero percent forwards nothing. */
  lemma ZeroTellsNothing<Id(!new)>(setup: Setup, es: seq<Event<Id>>, i: nat)
    requires setup.skip > 0 && setup.percent <= 0.0 && i < |es| && es[i].Begin?
    ensures !Told(setup, es, i)
  {
    hide Told, NumberOf;
    ToldIff(setup, es, i);
    assert setup.percent * RAND_MAX as real <= 0.0;
  }

  /** A higher percentage forwards at least what a lower one does. */
  lemma HigherTellsMore<Id(!new)>(setup: Setup, percent: real, es: seq<Event<Id>>, i: nat)
    requires setup.skip > 0 && setup.percent <= percent && i < |es| && es[i].Begin?
    ensures Told(setup, es, i) ==> Told(setup.(percent := percent), es, i)
  {
    hide Told, NumberOf;
    ToldIff(setup, es, i);
    ToldIff(setup.(percent := percent), es, i);
    assert setup.percent * RAND_MAX as real <= percent * RAND_MAX as real;
  }

  lemma AnyConstruct(c: Construct)
    ensures c in {ForLoop, ScanLoop, ReduceLoop}
  {
    match c case ForLoop => case ScanLoop => case ReduceLoop =>
  }

  /** What the environment asks for is what happens: a probability is the share of draws forwarded, whatever the skip;
      a skip alone forwards every begin after so many left out, unless its draw is the largest; with neither, a tenth
      of the draws is forwarded. */
  lemma AsAsked<Id(!new)>(probability: Wish<real>, skip: Wish<int>, es: seq<Event<Id>>, i: nat)
    requires i < |es| && es[i].Begin? && es[i].draw <= RAND_MAX
    requires skip.Set? ==> IsInt32(skip.value) && skip.value >= 0
    ensures var all := {ForLoop, ScanLoop, ReduceLoop};
      var setup := Setup(SkipOf(probability, skip), PercentOf(probability, skip), all, all);
      && setup.skip > 0
      && match probability
         case Set(p) =>
           Told(setup, es, i) <==>
             es[i].draw as real * 100.0 < (if p < 0.0 then 0.0 else if p > 100.0 then 100.0 else p) * RAND_MAX as real
         case Unset =>
           match skip
           case Set(k) => Told(setup, es, i) <==> NumberOf(es, i) % (k + 1) == 0 && es[i].draw < RAND_MAX
           case Unset => Told(setup, es, i) <==> 10 * es[i].draw < RAND_MAX
  {
    hide Told, NumberOf;
    ProbabilityWins(probability, skip);
    var all := {ForLoop, ScanLoop, ReduceLoop};
    var setup := Setup(SkipOf(probability, skip), PercentOf(probability, skip), all, all);
    AnyConstruct(es[i].construct);
    ToldIff(setup, es, i);
  }

  /** The multiples of the skip whose draw was the largest possible: even 100 percent drops those. */
  ghost function Dropped(skip: nat, draws: seq<nat>): nat
    requires skip > 0
  {
    if draws == [] then 0 else
      Dropped(skip, draws[..|draws| - 1]) + if |draws| % skip == 0 && draws[|draws| - 1] == RAND_MAX then 1 else 0
  }

  lemma NextMultiple(n: nat, k: nat)
    requires k > 0
    ensures (n + 1) / k == n / k + if (n + 1) % k == 0 then 1 else 0
  {
    var q, r := n / k, n % k;
    assert n == q * k + r;
    if r + 1 == k {
      assert n + 1 == (q + 1) * k;
      Quotient(q + 1, k, 0);
    } else {
      Quotient(q, k, r + 1);
    }
  }

  lemma Quotient(q: nat, k: nat, r: nat)
    requires r < k
    ensures (q * k + r) / k == q && (q * k + r) % k == r
  {
    var x := q * k + r;
    var q', r' := x / k, x % k;
    assert x == q' * k + r';
    if q' > q {
      Scaled(q + 1, q', k);
    } else if q' < q {
      Scaled(q' + 1, q, k);
    }
  }

  lemma Scaled(a: nat, b: nat, k: nat)
    requires a <= b
    ensures a * k <= b * k
    ensures a > 0 ==> a * k == (a - 1) * k + k
  {
  }

  lemma FullPercent(setup: Setup, number: nat, draw: nat)
    requires setup.skip > 0 && setup.percent == 100.0 && draw <= RAND_MAX
    ensures Sampled(setup, number, draw) <==> number % setup.skip == 0 && draw < RAND_MAX
  {
    if draw < RAND_MAX {
      BelowOne(draw as real, RAND_MAX as real);
    }
  }

  lemma BelowOne(x: real, y: real)
    requires 0.0 <= x < y
    ensures x / y < 1.0
  {
  }

  lemma {:induction false} EveryMultiple(setup: Setup, draws: seq<nat>)
    requires setup.skip > 0 && setup.percent == 100.0 && forall i :: 0 <= i < |draws| ==> draws[i] <= RAND_MAX
    ensures SampledOf(setup, draws) + Dropped(setup.skip, draws) == |draws| / setup.skip
    decreases |draws|
  {
    hide Sampled;
    if draws == [] {
      Quotient(0, setup.skip, 0);
    } else {
      EveryMultiple(setup, draws[..|draws| - 1]);
      FullPercent(setup, |draws|, draws[|draws| - 1]);
      NextMultiple(|draws| - 1, setup.skip);
    }
  }

  /** In skip mode the child is told of exactly the begins numbered `skip`, twice `skip` and so on within their
      construct, whatever the other constructs do, except where the draw was the largest possible. */
  lemma EverySkipth<Id>(setup: Setup, es: seq<Event<Id>>, i: nat)
    requires setup.skip > 0 && setup.percent == 100.0 && i < |es| && es[i].Begin? && es[i].draw <= RAND_MAX
    requires es[i].construct in setup.begins
    ensures var told, e := Run(setup, es).told, AsTold(setup, es, i);
      && (e in told <==> NumberOf(es, i) % setup.skip == 0 && es[i].draw < RAND_MAX)
      && (e in told <==> BegunBefore(told, e.origin))
  {
    hide Sampled;
    WhichBegins(setup, es, i);
    FullPercent(setup, NumberOf(es, i), es[i].draw);
  }

  /** Of `n` begins of a construct that makes `n / skip`, less those dropped. */
  lemma Periodic<Id>(setup: Setup, es: seq<Event<Id>>, c: Construct)
    requires setup.skip > 0 && setup.percent == 100.0 && c in setup.begins
    requires forall i :: 0 <= i < |es| && es[i].Begin? ==> es[i].draw <= RAND_MAX
    ensures var n, dropped := |Draws(es, c)|, Dropped(setup.skip, Draws(es, c));
      Forwarded(Run(setup, es).told, c) + dropped == n / setup.skip
  {
    CountedApart(setup, es, c);
    DrawsInRange(es, c);
    EveryMultiple(setup, Draws(es, c));
  }

  /** Some draw at a multiple of the skip was the largest possible. */
  ghost predicate SomeDropped(skip: nat, draws: seq<nat>)
    requires skip > 0
  {
    exists i :: 0 <= i < |draws| && draws[i] == RAND_MAX && (i + 1) % skip == 0
  }

  lemma {:induction false} DroppedSome(skip: nat, draws: seq<nat>)
    requires skip > 0
    ensures Dropped(skip, draws) > 0 <==> SomeDropped(skip, draws)
  {
    hide SomeDropped;
    if draws == [] {
      NoneDropped(skip);
    } else {
      DroppedSome(skip, draws[..|draws| - 1]);
      SomeDroppedNow(skip, draws);
    }
  }

  lemma NoneDropped(skip: nat)
    requires skip > 0
    ensures !SomeDropped(skip, [])
  {
  }

  lemma SomeDroppedNow(skip: nat, draws: seq<nat>)
    requires skip > 0 && draws != []
    ensures SomeDropped(skip, draws) <==>
      SomeDropped(skip, draws[..|draws| - 1]) || (draws[|draws| - 1] == RAND_MAX && |draws| % skip == 0)
  {
    var pre := draws[..|draws| - 1];
    if i :| 0 <= i < |pre| && pre[i] == RAND_MAX && (i + 1) % skip == 0 {
      assert draws[i] == RAND_MAX;
    }
    if i :| 0 <= i < |draws| && draws[i] == RAND_MAX && (i + 1) % skip == 0 && i < |pre| {
      assert pre[i] == RAND_MAX;
    }
  }

  /** The child is told of a begin exactly if its number is a multiple of the skip. */
  ghost predicate ToldEverySkipth<Id>(setup: Setup, es: seq<Event<Id>>, c: Construct)
    requires setup.skip > 0
  {
    forall i :: 0 <= i < |es| && es[i].Begin? && es[i].construct == c ==>
      (AsTold(setup, es, i) in Run(setup, es).told <==> NumberOf(es, i) % setup.skip == 0)
  }

  lemma {:induction false} DrawOf<Id>(es: seq<Event<Id>>, i: nat)
    requires i < |es| && es[i].Begin?
    ensures NumberOf(es, i) <= |Draws(es, es[i].construct)|
    ensures Draws(es, es[i].construct)[NumberOf(es, i) - 1] == es[i].draw
    decreases |es|
  {
    var pre := es[..|es| - 1];
    assert pre[..if i < |pre| then i else |pre|] == es[..i];
    if i < |pre| {
      DrawOf(pre, i);
    }
  }

  lemma {:induction false} BeginOf<Id>(es: seq<Event<Id>>, c: Construct, n: nat) returns (i: nat)
    requires n < |Draws(es, c)|
    ensures i < |es| && es[i].Begin? && es[i].construct == c && NumberOf(es, i) == n + 1
    decreases |es|
  {
    var pre := es[..|es| - 1];
    if n < |Draws(pre, c)| {
      i := BeginOf(pre, c, n);
      assert pre[..i] == es[..i];
    } else {
      i := |pre|;
    }
  }

  /** Full sampling keeps its promise, of every single begin as well as of their number, exactly when no draw
      at a multiple of the skip was the largest possible. */
  lemma FullSampling<Id>(setup: Setup, es: seq<Event<Id>>, c: Construct)
    requires setup.skip > 0 && setup.percent == 100.0 && c in setup.begins
    requires forall i :: 0 <= i < |es| && es[i].Begin? ==> es[i].draw <= RAND_MAX
    ensures ToldEverySkipth(setup, es, c) <==> !SomeDropped(setup.skip, Draws(es, c))
    ensures Forwarded(Run(setup, es).told, c) == |Draws(es, c)| / setup.skip <==> !SomeDropped(setup.skip, Draws(es, c))
  {
    hide Run, Sampled, Dropped, Forwarded, NumberOf, Draws, AsTold;
    Periodic(setup, es, c);
    DroppedSome(setup.skip, Draws(es, c));
    var draws := Draws(es, c);
    forall i | 0 <= i < |es| && es[i].Begin? && es[i].construct == c
      ensures NumberOf(es, i) <= |draws| && draws[NumberOf(es, i) - 1] == es[i].draw
      ensures AsTold(setup, es, i) in Run(setup, es).told <==>
        NumberOf(es, i) % setup.skip == 0 && es[i].draw < RAND_MAX
    {
      DrawOf(es, i);
      EverySkipth(setup, es, i);
    }
    if SomeDropped(setup.skip, draws) {
      var n :| 0 <= n < |draws| && draws[n] == RAND_MAX && (n + 1) % setup.skip == 0;
      var i := BeginOf(es, c, n);
    } else {
      forall i | 0 <= i < |es| && es[i].Begin? && es[i].construct == c
        ensures AsTold(setup, es, i) in Run(setup, es).told <==> NumberOf(es, i) % setup.skip == 0
      {
        var n := NumberOf(es, i) - 1;
        assert draws[n] == RAND_MAX ==> (n + 1) % setup.skip != 0;
      }
    }
  }

  /** A kernel whose draw is the largest possible is dropped at 100 percent and without a skip. */
  lemma LargestDrawDropped()
    ensures var setup := Setup(1, 100.0, {ForLoop}, {ForLoop});
      Run<nat>(setup, [Begin(ForLoop, "a", RAND_MAX, 7)]).told == []
  {
    var setup := Setup(1, 100.0, {ForLoop}, {ForLoop});
    var es: seq<Event<nat>> := [Begin(ForLoop, "a", RAND_MAX, 7)];
    assert Run(setup, es) == Step(setup, Run(setup, es[..0]), es[0]);
    FullPercent(setup, 1, RAND_MAX);
  }

  lemma {:induction false} DrawsInRange<Id>(es: seq<Event<Id>>, c: Construct)
    requires forall i :: 0 <= i < |es| && es[i].Begin? ==> es[i].draw <= RAND_MAX
    ensures forall i :: 0 <= i < |Draws(es, c)| ==> Draws(es, c)[i] <= RAND_MAX
  {
    if es != [] {
      DrawsInRange(es[..|es| - 1], c);
    }
  }
}
