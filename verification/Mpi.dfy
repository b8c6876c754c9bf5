/** The collectives the reduction uses, as each process issues them. */
module Mpi {

  datatype Op = SumOp | MaxOp | MinOp

  datatype Type = DoubleType | IntType | CharType

  /** A pending call, with the arguments that must agree on all processes. */
  datatype Call =
    | Allreduce(op: Op, count: nat, elements: Type)
    | Bcast(root: nat, count: nat, elements: Type)
    | NoCall

  /** What one process puts in or gets out. */
  datatype Value = Number(i: int) | Ratio(x: real) | Text(s: string)

  function IntOf(v: Value): int {
    if v.Number? then v.i else 0
  }

  function RealOf(v: Value): real {
    if v.Ratio? then v.x else 0.0
  }

  function TextOf(v: Value): string {
    if v.Text? then v.s else ""
  }

  function SumInts(s: seq<int>): int {
    if s == [] then 0 else SumInts(s[..|s| - 1]) + s[|s| - 1]
  }

  function SumReals(s: seq<real>): real {
    if s == [] then 0.0 else SumReals(s[..|s| - 1]) + s[|s| - 1]
  }

  function MaxInts(s: seq<int>): (m: int)
    requires s != []
    ensures m in s && forall i :: 0 <= i < |s| ==> s[i] <= m
  {
    if |s| == 1 then s[0] else
      var m := MaxInts(s[..|s| - 1]);
      if m < s[|s| - 1] then s[|s| - 1] else m
  }

  function MinInts(s: seq<int>): (m: int)
    requires s != []
    ensures m in s && forall i :: 0 <= i < |s| ==> m <= s[i]
  {
    if |s| == 1 then s[0] else
      var m := MinInts(s[..|s| - 1]);
      if m > s[|s| - 1] then s[|s| - 1] else m
  }

  lemma {:induction false} SumOfConversions(s: seq<int>, x: seq<real>)
    requires |s| == |x| && forall i :: 0 <= i < |s| ==> x[i] == s[i] as real
    ensures SumReals(x) == SumInts(s) as real
  {
    if s != [] {
      SumOfConversions(s[..|s| - 1], x[..|x| - 1]);
    }
  }

  function Ints(vs: seq<Value>): seq<int> {
    seq(|vs|, i requires 0 <= i < |vs| => IntOf(vs[i]))
  }

  function Reals(vs: seq<Value>): seq<real> {
    seq(|vs|, i requires 0 <= i < |vs| => RealOf(vs[i]))
  }

  /** As much of a text as is sent. */
  function Part(v: Value, count: nat): Value {
    if v.Text? && count < |v.s| then Text(v.s[..count]) else v
  }

  /** What every process gets when all have made the call `c` with these values. */
  function Outcome(c: Call, vs: seq<Value>): Value
    requires vs != [] && (c.Bcast? ==> c.root < |vs|)
  {
    match c
    case Allreduce(SumOp, _, _) => if vs[0].Ratio? then Ratio(SumReals(Reals(vs))) else Number(SumInts(Ints(vs)))
    case Allreduce(MaxOp, _, _) => Number(MaxInts(Ints(vs)))
    case Allreduce(MinOp, _, _) => Number(MinInts(Ints(vs)))
    case Bcast(root, count, _) => Part(vs[root], count)
    case NoCall => vs[0]
  }
}
