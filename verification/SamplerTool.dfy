/** The sampler as its callbacks run. */
module SamplerTool {
  import opened Sampling

  /** The state shared by the callbacks. The child tool's ids are 64-bit numbers. */
  class SamplerLibrary {
    const setup: Setup
    var uniqID: nat
    var invocationNum: map<Construct, nat>
    var infokIDSample: map<nat, nat>
    ghost var told: seq<ChildEvent<nat>>

    ghost predicate Valid()
      reads this
    {
      setup.skip > 0 && forall c: Construct :: c in invocationNum
    }

    ghost function State(): Sampler<nat>
      reads this
    {
      Sampler(uniqID, invocationNum, infokIDSample, told)
    }

    constructor (setup: Setup)
      requires setup.skip > 0
      ensures Valid() && this.setup == setup && State() == Fresh()
    {
      this.setup := setup;
      uniqID := 1;
      invocationNum := map[ForLoop := 0, ScanLoop := 0, ReduceLoop := 0];
      infokIDSample := map[];
      told := [];
      new;
      forall c: Construct ensures c in invocationNum {
        match c case ForLoop => case ScanLoop => case ReduceLoop =>
      }
    }

    /** `draw` is what `rand()` returns and `childId` what the child tool answers, if it is asked. */
    method BeginParallel(c: Construct, name: string, draw: nat, childId: nat) returns (kID: nat)
      requires Valid()
      modifies this
      ensures Valid() && kID == old(uniqID)
      ensures State() == Step(setup, old(State()), Begin(c, name, draw, childId))
    {
      kID := uniqID;
      uniqID := uniqID + 1;
      invocationNum := invocationNum[c := invocationNum[c] + 1];
      if invocationNum[c] % setup.skip == 0 {
        if draw as real / RAND_MAX as real < setup.percent / 100.0 {
          if c in setup.begins {
            told := told + [ChildBegin(c, name, kID, childId)];
            if kID !in infokIDSample {
              infokIDSample := infokIDSample[kID := childId];
            }
          }
        }
      }
    }

    method EndParallel(c: Construct, kID: nat)
      requires Valid()
      modifies this
      ensures Valid()
      ensures State() == Step(setup, old(State()), End(c, kID))
    {
      if c in setup.ends {
        if kID in infokIDSample {
          var retrievedNestedkID := infokIDSample[kID];
          told := told + [ChildEnd(c, kID, retrievedNestedkID)];
          infokIDSample := infokIDSample - {kID};
        }
      }
    }
  }
}
