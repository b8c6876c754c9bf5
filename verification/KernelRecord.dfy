/** The binary record of one kernel, as values. */
module KernelRecord {
  import opened Words

  type Byte = n: nat | n < 256

  type Bytes = seq<Byte>

  function Pow256(w: nat): nat {
    if w == 0 then 1 else 256 * Pow256(w - 1)
  }

  /** An integer of `w` bytes in memory, least significant byte first. */
  function ToBytes(n: nat, w: nat): (b: Bytes)
    ensures |b| == w
  {
    if w == 0 then [] else [n % 256] + ToBytes(n / 256, w - 1)
  }

  function FromBytes(b: Bytes): (n: nat)
    ensures n < Pow256(|b|)
  {
    if b == [] then 0 else
      var rest := FromBytes(b[1..]);
      assert 256 * rest + 255 < 256 * Pow256(|b| - 1);
      b[0] + 256 * rest
  }

  lemma {:induction false} IntegerRoundTrip(n: nat, w: nat)
    requires n < Pow256(w)
    ensures FromBytes(ToBytes(n, w)) == n
  {
    if w > 0 {
      assert n / 256 < Pow256(w - 1);
      IntegerRoundTrip(n / 256, w - 1);
      assert ToBytes(n, w)[1..] == ToBytes(n / 256, w - 1);
    }
  }

  lemma Widths()
    ensures Pow256(4) == WORD32 && Pow256(8) == WORD64
  {
    assert Pow256(1) == 256 && Pow256(2) == 0x1_0000 && Pow256(3) == 0x100_0000;
    assert Pow256(4) == WORD32;
    assert Pow256(5) == 0x100_0000_0000 && Pow256(6) == 0x1_0000_0000_0000 && Pow256(7) == 0x100_0000_0000_0000;
  }

  datatype KernelType = ParallelFor | ParallelReduce | ParallelScan | Region

  function TypeCode(k: KernelType): nat {
    match k
    case ParallelFor => 0
    case ParallelReduce => 1
    case ParallelScan => 2
    case Region => 3
  }

  /** A code that is none of the four leaves the type it was constructed with. */
  function TypeOf(code: nat): KernelType {
    if code == 1 then ParallelReduce else if code == 2 then ParallelScan else if code == 3 then Region else ParallelFor
  }

  datatype Kernel = Kernel(name: Bytes, callCount: nat, time: real, timeSq: real, kType: KernelType)

  /** How a double lies in memory. */
  datatype Doubles = Doubles(bits: real -> nat, value: nat -> real)

  /** A number this representation can hold. */
  predicate Holds(d: Doubles, x: real) {
    d.bits(x) < WORD64 && d.value(d.bits(x)) == x
  }

  predicate Writable(d: Doubles, k: Kernel) {
    |k.name| + 32 < WORD32 && k.callCount < WORD64 && Holds(d, k.time) && Holds(d, k.timeSq)
  }

  /** The part of a record that follows its length. */
  function Entry(d: Doubles, k: Kernel): Bytes {
    ToBytes(|k.name|, 4) + k.name + ToBytes(k.callCount, 8)
      + ToBytes(d.bits(k.time), 8) + ToBytes(d.bits(k.timeSq), 8) + ToBytes(TypeCode(k.kType), 4)
  }

  function Record(d: Doubles, k: Kernel): Bytes {
    ToBytes(|Entry(d, k)|, 4) + Entry(d, k)
  }

  /** The four fixed-width fields and the name lie within the entry. */
  predicate InBounds(entry: Bytes) {
    |entry| >= 4 && |entry| >= FromBytes(entry[..4]) + 32
  }

  function Parse(d: Doubles, entry: Bytes): Kernel
    requires InBounds(entry)
  {
    var n := FromBytes(entry[..4]);
    Kernel(entry[4..4 + n], FromBytes(entry[4 + n..12 + n]), d.value(FromBytes(entry[12 + n..20 + n])),
           d.value(FromBytes(entry[20 + n..28 + n])), TypeOf(FromBytes(entry[28 + n..32 + n])))
  }

  lemma EntryRoundTrip(d: Doubles, k: Kernel)
    requires Writable(d, k)
    ensures |Entry(d, k)| == |k.name| + 32 && InBounds(Entry(d, k)) && Parse(d, Entry(d, k)) == k
  {
    hide FromBytes, ToBytes;
    Widths();
    var e, n := Entry(d, k), |k.name|;
    IntegerRoundTrip(n, 4);
    IntegerRoundTrip(k.callCount, 8);
    IntegerRoundTrip(d.bits(k.time), 8);
    IntegerRoundTrip(d.bits(k.timeSq), 8);
    IntegerRoundTrip(TypeCode(k.kType), 4);
    Parts(ToBytes(n, 4), k.name, ToBytes(k.callCount, 8), ToBytes(d.bits(k.time), 8), ToBytes(d.bits(k.timeSq), 8),
      ToBytes(TypeCode(k.kType), 4));
  }

  lemma Parts(a: Bytes, b: Bytes, c: Bytes, d: Bytes, e: Bytes, f: Bytes)
    requires |a| == |f| == 4 && |c| == |d| == |e| == 8
    ensures var all, n := a + b + c + d + e + f, |b|;
      && |all| == n + 32 && all[..4] == a && all[4..4 + n] == b && all[4 + n..12 + n] == c
      && all[12 + n..20 + n] == d && all[20 + n..28 + n] == e && all[28 + n..32 + n] == f
  {
  }

  /** What bytes are worth, each 256 times as much as the one before it. */
  ghost function Worth(b: Bytes): nat {
    if b == [] then 0 else Worth(b[..|b| - 1]) + b[|b| - 1] * Pow256(|b| - 1)
  }

  lemma {:induction false} WorthOfFirst(b: Bytes)
    requires b != []
    ensures Worth(b) == b[0] + 256 * Worth(b[1..])
  {
    var n := |b| - 1;
    if n == 0 {
      assert b[..0] == [] && b[1..] == [];
    } else {
      WorthOfFirst(b[..n]);
      assert b[..n][1..] == b[1..][..n - 1];
      assert b[n] * Pow256(n) == 256 * (b[n] * Pow256(n - 1));
    }
  }

  lemma {:induction false} ToBytesWorth(n: nat, w: nat)
    requires n < Pow256(w)
    ensures Worth(ToBytes(n, w)) == n
  {
    if w > 0 {
      assert n / 256 < Pow256(w - 1);
      ToBytesWorth(n / 256, w - 1);
      WorthOfFirst(ToBytes(n, w));
      assert ToBytes(n, w)[1..] == ToBytes(n / 256, w - 1);
    }
  }

  /** Where each field of a record lies, least significant byte first: the record's length, the length of the name, the
      name, the call count, the time, the sum of squares, and the kind as a number. */
  lemma RecordLayout(d: Doubles, k: Kernel)
    requires Writable(d, k)
    ensures var r, n := Record(d, k), |k.name|;
      && |r| == n + 36
      && Worth(r[..4]) == n + 32 && Worth(r[4..8]) == n && r[8..8 + n] == k.name
      && Worth(r[8 + n..16 + n]) == k.callCount
      && Worth(r[16 + n..24 + n]) == d.bits(k.time) && Worth(r[24 + n..32 + n]) == d.bits(k.timeSq)
      && Worth(r[32 + n..]) == (match k.kType
           case ParallelFor => 0 case ParallelReduce => 1 case ParallelScan => 2 case Region => 3)
  {
    hide ToBytes, Worth, Pow256;
    Widths();
    var e, n := Entry(d, k), |k.name|;
    ToBytesWorth(n + 32, 4);
    ToBytesWorth(n, 4);
    ToBytesWorth(k.callCount, 8);
    ToBytesWorth(d.bits(k.time), 8);
    ToBytesWorth(d.bits(k.timeSq), 8);
    ToBytesWorth(TypeCode(k.kType), 4);
    Parts(ToBytes(n, 4), k.name, ToBytes(k.callCount, 8), ToBytes(d.bits(k.time), 8), ToBytes(d.bits(k.timeSq), 8),
      ToBytes(TypeCode(k.kType), 4));
    InRecord(ToBytes(|e|, 4), e, n);
  }

  lemma InRecord(head: Bytes, e: Bytes, n: nat)
    requires |head| == 4 && |e| == n + 32
    ensures var r := head + e;
      && |r| == n + 36 && r[..4] == head && r[4..8] == e[..4] && r[8..8 + n] == e[4..4 + n]
      && r[8 + n..16 + n] == e[4 + n..12 + n] && r[16 + n..24 + n] == e[12 + n..20 + n]
      && r[24 + n..32 + n] == e[20 + n..28 + n] && r[32 + n..] == e[28 + n..32 + n]
  {
  }

  // ---- A file of records ----

  /** What one attempt to read a record finds. */
  datatype ReadResult =
    | Loaded(kernel: Kernel, pos: nat)   // a record, ending at `pos`
    | EndOfFile                          // the file is exhausted
    | Skipped(pos: nat)                  // a length of zero: nothing is read, but the file goes on
    | Overrun                            // a field would lie outside the record

  function ReadRecord(d: Doubles, demangle: Bytes -> Bytes, file: Bytes, pos: nat): (r: ReadResult)
    requires pos <= |file|
    ensures r.Loaded? ==> pos + 4 <= r.pos <= |file|
    ensures r.Skipped? ==> r.pos == pos + 4 <= |file|
  {
    if pos + 4 > |file| then EndOfFile else
      var length := FromBytes(file[pos..pos + 4]);
      if length == 0 then Skipped(pos + 4)
      else if pos + 4 + length > |file| then EndOfFile
      else
        var entry := file[pos + 4..pos + 4 + length];
        if InBounds(entry) then
          var k := Parse(d, entry);
          Loaded(k.(name := demangle(k.name)), pos + 4 + length)
        else Overrun
  }

  /** The records the reader's loop loads from `pos` on, up to the end of the file or the first overrun. */
  function ReadAll(d: Doubles, demangle: Bytes -> Bytes, file: Bytes, pos: nat): seq<Kernel>
    requires pos <= |file|
    decreases |file| - pos
  {
    match ReadRecord(d, demangle, file, pos)
    case Loaded(k, next) => [k] + ReadAll(d, demangle, file, next)
    case Skipped(next) => ReadAll(d, demangle, file, next)
    case EndOfFile => []
    case Overrun => []
  }

  predicate Clean(d: Doubles, demangle: Bytes -> Bytes, file: Bytes, pos: nat)
    requires pos <= |file|
    decreases |file| - pos
  {
    match ReadRecord(d, demangle, file, pos)
    case Loaded(_, next) => Clean(d, demangle, file, next)
    case Skipped(next) => Clean(d, demangle, file, next)
    case EndOfFile => true
    case Overrun => false
  }

  function Records(d: Doubles, ks: seq<Kernel>): Bytes {
    if ks == [] then [] else Records(d, ks[..|ks| - 1]) + Record(d, ks[|ks| - 1])
  }

  /** The file the profiler writes: its run time, then its records. */
  function File(d: Doubles, total: real, ks: seq<Kernel>): Bytes {
    ToBytes(d.bits(total), 8) + Records(d, ks)
  }

  lemma {:induction false} RecordsSplit(d: Doubles, ks: seq<Kernel>)
    requires ks != []
    ensures Records(d, ks) == Record(d, ks[0]) + Records(d, ks[1..])
  {
    hide Record;
    if |ks| == 1 {
      assert ks[..0] == [] && ks[1..] == [];
    } else {
      RecordsSplit(d, ks[..|ks| - 1]);
      assert ks[..|ks| - 1][1..] == ks[1..][..|ks| - 2];
    }
  }

  function Demangled(demangle: Bytes -> Bytes, ks: seq<Kernel>): seq<Kernel> {
    seq(|ks|, i requires 0 <= i < |ks| => ks[i].(name := demangle(ks[i].name)))
  }

  lemma Slices(before: Bytes, head: Bytes, e: Bytes, after: Bytes)
    ensures var file := before + (head + e) + after;
      && file[|before|..|before| + |head|] == head
      && file[|before| + |head|..|before| + |head| + |e|] == e
  {
    assert before + (head + e) + after == before + head + e + after;
  }

  lemma ReadOne(d: Doubles, demangle: Bytes -> Bytes, before: Bytes, k: Kernel, after: Bytes)
    requires Writable(d, k)
    ensures ReadRecord(d, demangle, before + Record(d, k) + after, |before|)
         == Loaded(k.(name := demangle(k.name)), |before| + |Record(d, k)|)
  {
    Widths();
    EntryRoundTrip(d, k);
    var e := Entry(d, k);
    IntegerRoundTrip(|e|, 4);
    Slices(before, ToBytes(|e|, 4), e, after);
    hide Entry, Parse, ToBytes, FromBytes, InBounds, Pow256;
  }

  lemma NothingLeft(d: Doubles, demangle: Bytes -> Bytes, file: Bytes)
    ensures ReadRecord(d, demangle, file, |file|) == EndOfFile
  {
  }

  /** Reading back a written file yields exactly the records written, in order, with demangled names,
      and the loop stops at the end of the file. */
  lemma {:induction false} ReadBack(d: Doubles, demangle: Bytes -> Bytes, before: Bytes, ks: seq<Kernel>)
    requires forall i :: 0 <= i < |ks| ==> Writable(d, ks[i])
    ensures ReadAll(d, demangle, before + Records(d, ks), |before|) == Demangled(demangle, ks)
    ensures Clean(d, demangle, before + Records(d, ks), |before|)
    decreases |ks|
  {
    hide Record, ReadRecord, Writable;
    var file := before + Records(d, ks);
    if ks == [] {
      NothingLeft(d, demangle, file);
    } else {
      var first, rest := Record(d, ks[0]), ks[1..];
      RecordsSplit(d, ks);
      assert file == before + first + Records(d, rest);
      ReadOne(d, demangle, before, ks[0], Records(d, rest));
      ReadBack(d, demangle, before + first, rest);
      assert Demangled(demangle, ks) == [ks[0].(name := demangle(ks[0].name))] + Demangled(demangle, rest);
    }
  }

  /** The file round trip: the header gives back the run time, and the loop after it the records. */
  lemma FileRoundTrip(d: Doubles, demangle: Bytes -> Bytes, total: real, ks: seq<Kernel>)
    requires Holds(d, total) && forall i :: 0 <= i < |ks| ==> Writable(d, ks[i])
    ensures var file := File(d, total, ks);
      && |file| >= 8 && d.value(FromBytes(file[..8])) == total
      && ReadAll(d, demangle, file, 8) == Demangled(demangle, ks)
      && Clean(d, demangle, file, 8)
  {
    Widths();
    IntegerRoundTrip(d.bits(total), 8);
    var header := ToBytes(d.bits(total), 8);
    assert File(d, total, ks)[..8] == header;
    ReadBack(d, demangle, header, ks);
  }
}
