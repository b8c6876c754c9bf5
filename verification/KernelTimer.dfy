/** Writing and reading the binary files of the kernel timer, as the tool and its readers do it. */
module KernelTimer {
  import opened KernelRecord
  import opened Words
  import opened Merging
  import opened ReaderTotals

  class OutputFile {
    var bytes: Bytes

    constructor ()
      ensures bytes == []
    {
      bytes := [];
    }

    method Fwrite(data: Bytes)
      modifies this
      ensures bytes == old(bytes) + data
    {
      bytes := bytes + data;
    }
  }

  class InputFile {
    const bytes: Bytes
    var pos: nat
    var eof: bool

    ghost predicate Valid()
      reads this
    {
      pos <= |bytes| && (eof ==> pos == |bytes|)
    }

    constructor (bytes: Bytes)
      ensures this.bytes == bytes && pos == 0 && !eof && Valid()
    {
      this.bytes, pos, eof := bytes, 0, false;
    }

    /** Reads one object of `n` bytes. Falling short uses up the file and sets its end-of-file mark;
        an object of no bytes is never read. */
    method Fread(n: nat) returns (ok: bool, data: Bytes)
      requires Valid()
      modifies this
      ensures Valid()
      ensures ok <==> 0 < n && old(pos) + n <= |bytes|
      ensures ok ==> data == bytes[old(pos)..old(pos) + n] && pos == old(pos) + n && eof == old(eof)
      ensures !ok && n == 0 ==> pos == old(pos) && eof == old(eof)
      ensures !ok && n > 0 ==> eof
    {
      if n == 0 {
        return false, [];
      }
      if pos + n <= |bytes| {
        ok, data := true, bytes[pos..pos + n];
        pos := pos + n;
      } else {
        ok, data, pos, eof := false, [], |bytes|, true;
      }
    }
  }

  /** Copies `src` into `dest` from `start` on, byte by byte. */
  method CopyBytes(dest: array<Byte>, start: nat, src: Bytes)
    requires start + |src| <= dest.Length
    modifies dest
    ensures dest[..start] == old(dest[..start]) && dest[start..start + |src|] == src
    ensures dest[start + |src|..] == old(dest[start + |src|..])
  {
    var i := 0;
    while i < |src|
      invariant 0 <= i <= |src|
      invariant dest[..start] == old(dest[..start]) && dest[start..start + i] == src[..i]
      invariant dest[start + |src|..] == old(dest[start + |src|..])
    {
      dest[start + i] := src[i];
      i := i + 1;
    }
  }

  class KernelPerformanceInfo {
    var kernelName: Bytes
    var callCount: nat
    var time: real
    var timeSq: real
    var kType: KernelType

    constructor (kName: Bytes, kernelType: KernelType)
      ensures View() == Kernel(kName, 0, 0.0, 0.0, kernelType)
    {
      kernelName, callCount, time, timeSq, kType := kName, 0, 0.0, 0.0, kernelType;
    }

    function View(): Kernel
      reads this
    {
      Kernel(kernelName, callCount, time, timeSq, kType)
    }

    method AddTime(t: real)
      modifies this
      ensures View() == old(View()).(time := old(time) + t, timeSq := old(timeSq) + Square(t))
    {
      time := time + t;
      timeSq := timeSq + t * t;
    }

    method AddCallCount(newCalls: nat)
      modifies this
      ensures View() == old(View()).(callCount := (old(callCount) + newCalls) % WORD64)
    {
      callCount := (callCount + newCalls) % WORD64;
    }

    /** The name must leave the record's length within 32 bits: past that the source writes outside its buffer. */
    method WriteToBinaryFile(d: Doubles, output: OutputFile)
      requires |kernelName| + 32 < WORD32
      modifies output
      ensures output.bytes == old(output.bytes) + Record(d, View())
    {
      var kernelNameLen := |kernelName|;
      var recordLen := 4 + kernelNameLen + 8 + 8 + 8 + 4;
      var entry := new Byte[recordLen];
      Fill(d, entry);
      output.Fwrite(ToBytes(recordLen, 4));
      output.Fwrite(entry[..]);
      assert |Entry(d, View())| == recordLen;
    }

    /** Lays the fields out one behind the other. */
    method Fill(d: Doubles, entry: array<Byte>)
      requires entry.Length == |kernelName| + 32
      modifies entry
      ensures entry[..] == Entry(d, View())
    {
      var nextIndex := 0;
      CopyBytes(entry, nextIndex, ToBytes(|kernelName|, 4));
      nextIndex := nextIndex + 4;
      CopyBytes(entry, nextIndex, kernelName);
      ghost var soFar := ToBytes(|kernelName|, 4) + kernelName;
      nextIndex := nextIndex + |kernelName|;
      assert entry[..nextIndex] == soFar;
      CopyBytes(entry, nextIndex, ToBytes(callCount, 8));
      soFar := soFar + ToBytes(callCount, 8);
      nextIndex := nextIndex + 8;
      assert entry[..nextIndex] == soFar;
      CopyBytes(entry, nextIndex, ToBytes(d.bits(time), 8));
      soFar := soFar + ToBytes(d.bits(time), 8);
      nextIndex := nextIndex + 8;
      assert entry[..nextIndex] == soFar;
      CopyBytes(entry, nextIndex, ToBytes(d.bits(timeSq), 8));
      soFar := soFar + ToBytes(d.bits(timeSq), 8);
      nextIndex := nextIndex + 8;
      assert entry[..nextIndex] == soFar;
      CopyBytes(entry, nextIndex, ToBytes(TypeCode(kType), 4));
      soFar := soFar + ToBytes(TypeCode(kType), 4);
      assert entry[..] == soFar;
    }

    /** Reads the next record into this object, just constructed with the default type. */
    method ReadFromFile(d: Doubles, demangle: Bytes -> Bytes, input: InputFile) returns (status: Status)
      requires input.Valid() && kType == ParallelFor
      modifies this, input
      ensures input.Valid()
      ensures match ReadRecord(d, demangle, input.bytes, old(input.pos))
        case Loaded(k, next) => status == Read && View() == k && input.pos == next && input.eof == old(input.eof)
        case Skipped(next) => status == NotRead && input.pos == next && input.eof == old(input.eof)
        case EndOfFile => status == NotRead && input.eof
        case Overrun => status == OutOfBounds
    {
      hide FromBytes, TypeCode;
      var ok, data := input.Fread(4);
      if !ok {
        return NotRead;
      }
      var recordLen := FromBytes(data);
      var entry;
      ok, entry := input.Fread(recordLen);
      if !ok {
        return NotRead;
      }
      if |entry| < 4 {
        return OutOfBounds;
      }
      var nextIndex := 0;
      var kernelNameLength := FromBytes(entry[nextIndex..nextIndex + 4]);
      nextIndex := nextIndex + 4;
      if nextIndex + kernelNameLength + 28 > |entry| {
        return OutOfBounds;
      }
      kernelName := demangle(entry[nextIndex..nextIndex + kernelNameLength]);
      nextIndex := nextIndex + kernelNameLength;
      callCount := FromBytes(entry[nextIndex..nextIndex + 8]);
      nextIndex := nextIndex + 8;
      time := d.value(FromBytes(entry[nextIndex..nextIndex + 8]));
      nextIndex := nextIndex + 8;
      timeSq := d.value(FromBytes(entry[nextIndex..nextIndex + 8]));
      nextIndex := nextIndex + 8;
      var kernelT := FromBytes(entry[nextIndex..nextIndex + 4]);
      if kernelT == 0 {
        kType := ParallelFor;
      } else if kernelT == 1 {
        kType := ParallelReduce;
      } else if kernelT == 2 {
        kType := ParallelScan;
      } else if kernelT == 3 {
        kType := Region;
      }
      status := Read;
    }
  }

  /** `OutOfBounds`: a field lies outside its record, where the source reads past its buffer. */
  datatype Status = Read | NotRead | OutOfBounds

  function Views(infos: seq<KernelPerformanceInfo>): (ks: seq<Kernel>)
    reads infos
    ensures |ks| == |infos|
  {
    seq(|infos|, i requires 0 <= i < |infos| reads infos => infos[i].View())
  }

  ghost predicate Apart(infos: seq<KernelPerformanceInfo>) {
    forall i, j :: 0 <= i < j < |infos| ==> infos[i] != infos[j]
  }

  /** Writes the whole file: the run time, then one record after the other. */
  method WriteFile(d: Doubles, totalExecuteTime: real, infos: seq<KernelPerformanceInfo>) returns (output: OutputFile)
    requires forall i :: 0 <= i < |infos| ==> |infos[i].kernelName| + 32 < WORD32
    ensures fresh(output) && output.bytes == File(d, totalExecuteTime, Views(infos))
  {
    hide Record, ToBytes;
    output := new OutputFile();
    output.Fwrite(ToBytes(d.bits(totalExecuteTime), 8));
    for i := 0 to |infos|
      invariant output.bytes == ToBytes(d.bits(totalExecuteTime), 8) + Records(d, Views(infos)[..i])
    {
      infos[i].WriteToBinaryFile(d, output);
      assert Views(infos)[..i + 1][..i] == Views(infos)[..i];
    }
    assert Views(infos)[..|infos|] == Views(infos);
  }

  method FindIndexOf(kernels: seq<KernelPerformanceInfo>, kernelName: Bytes) returns (index: int)
    ensures index == FindIndex(Views(kernels), kernelName)
  {
    for i := 0 to |kernels|
      invariant forall j :: 0 <= j < i ==> kernels[j].kernelName != kernelName
    {
      if kernels[i].kernelName == kernelName {
        assert Views(kernels)[i].name == kernelName;
        return i;
      }
    }
    index := -1;
  }

  /** Adds a record to the entry of its name, or lists it as a new entry. Unnamed records are dropped. */
  method MergeInfo(kernelInfo: seq<KernelPerformanceInfo>, newKernel: KernelPerformanceInfo)
    returns (kernelInfo': seq<KernelPerformanceInfo>)
    requires Apart(kernelInfo) && newKernel !in kernelInfo
    modifies kernelInfo
    ensures Apart(kernelInfo') && (kernelInfo' == kernelInfo || kernelInfo' == kernelInfo + [newKernel])
    ensures Views(kernelInfo') == Merge(old(Views(kernelInfo)), old(newKernel.View()))
  {
    kernelInfo' := kernelInfo;
    if newKernel.kernelName != [] {
      var kernelIndex := FindIndexOf(kernelInfo, newKernel.kernelName);
      if kernelIndex > -1 {
        ghost var was := Views(kernelInfo);
        kernelInfo[kernelIndex].AddTime(newKernel.time);
        kernelInfo[kernelIndex].AddCallCount(newKernel.callCount);
        assert Views(kernelInfo) == was[kernelIndex := AddTo(was[kernelIndex], newKernel.View())];
      } else {
        kernelInfo' := kernelInfo + [newKernel];
      }
    }
  }

  /** One turn of the reading loop: a record is read and merged, unless there is none. */
  method ReadNext(d: Doubles, demangle: Bytes -> Bytes, file: InputFile, kernelInfo: seq<KernelPerformanceInfo>)
    returns (kernelInfo': seq<KernelPerformanceInfo>, ok: bool)
    requires file.Valid() && Apart(kernelInfo)
    modifies file, kernelInfo
    ensures file.Valid() && Apart(kernelInfo') && fresh(set k | k in kernelInfo' && k !in kernelInfo)
    ensures match ReadRecord(d, demangle, file.bytes, old(file.pos))
      case Loaded(k, next) =>
        && ok && Views(kernelInfo') == Merge(old(Views(kernelInfo)), k)
        && file.pos == next && file.eof == old(file.eof)
      case Skipped(next) =>
        && ok && Views(kernelInfo') == old(Views(kernelInfo))
        && file.pos == next && file.eof == old(file.eof)
      case EndOfFile => ok && Views(kernelInfo') == old(Views(kernelInfo)) && file.eof
      case Overrun => !ok && Views(kernelInfo') == old(Views(kernelInfo))
  {
    hide ReadRecord, Merge;
    kernelInfo', ok := kernelInfo, true;
    var newKernel := new KernelPerformanceInfo([], ParallelFor);
    var status := newKernel.ReadFromFile(d, demangle, file);
    assert Views(kernelInfo) == old(Views(kernelInfo));
    if status == OutOfBounds {
      ok := false;
    } else if status == Read {
      kernelInfo' := MergeInfo(kernelInfo, newKernel);
    }
  }

  /** Reads records until the end of the file and merges each into the list. Stops, not `clean`, at a record
      whose fields do not lie within it. */
  method FillInfo(d: Doubles, demangle: Bytes -> Bytes, file: InputFile, kernelInfo: seq<KernelPerformanceInfo>)
    returns (kernelInfo': seq<KernelPerformanceInfo>, clean: bool)
    requires file.Valid() && Apart(kernelInfo)
    modifies file, kernelInfo
    ensures file.Valid() && Apart(kernelInfo') && fresh(set k | k in kernelInfo' && k !in kernelInfo)
    ensures clean <==> Clean(d, demangle, file.bytes, old(file.pos))
    ensures Views(kernelInfo') == MergeAll(old(Views(kernelInfo)), ReadAll(d, demangle, file.bytes, old(file.pos)))
    ensures clean ==> file.eof
  {
    hide ReadRecord, Merge, MergeAll;
    kernelInfo' := kernelInfo;
    ghost var before, read := Views(kernelInfo), [];
    MergeNone(before);
    while !file.eof
      invariant file.Valid() && Apart(kernelInfo') && fresh(set k | k in kernelInfo' && k !in kernelInfo)
      invariant read + Rest(d, demangle, file) == old(Rest(d, demangle, file))
      invariant Clean(d, demangle, file.bytes, file.pos) == Clean(d, demangle, file.bytes, old(file.pos))
      invariant Views(kernelInfo') == MergeAll(before, read)
      decreases !file.eof, |file.bytes| - file.pos
    {
      ghost var result, rest := ReadRecord(d, demangle, file.bytes, file.pos), Rest(d, demangle, file);
      clean := true;
      kernelInfo', clean := ReadNext(d, demangle, file, kernelInfo');
      if !clean {
        assert read + rest == read;
        return;
      }
      if result.Loaded? {
        MergeMore(before, read, result.kernel);
        read := read + [result.kernel];
      } else if result.EndOfFile? {
        NothingAtEnd(d, demangle, file.bytes, file.pos);
      }
    }
    NothingAtEnd(d, demangle, file.bytes, file.pos);
    assert read + [] == read;
    clean := true;
  }

  ghost function Rest(d: Doubles, demangle: Bytes -> Bytes, file: InputFile): seq<Kernel>
    requires file.Valid()
    reads file
  {
    ReadAll(d, demangle, file.bytes, file.pos)
  }

  lemma MergeNone(es: seq<Kernel>)
    ensures MergeAll(es, []) == es
  {
  }

  lemma MergeMore(es: seq<Kernel>, ks: seq<Kernel>, k: Kernel)
    ensures MergeAll(es, ks + [k]) == Merge(MergeAll(es, ks), k)
  {
    assert (ks + [k])[..|ks|] == ks;
  }

  lemma NothingAtEnd(d: Doubles, demangle: Bytes -> Bytes, file: Bytes, pos: nat)
    requires pos == |file|
    ensures ReadAll(d, demangle, file, pos) == [] && Clean(d, demangle, file, pos)
  {
  }

  /** The files one after the other: each starts with a run time, and its records are merged into one list. */
  method ReadFiles(d: Doubles, demangle: Bytes -> Bytes, files: seq<Bytes>)
    returns (totalExecuteTime: real, kernelInfo: seq<KernelPerformanceInfo>, clean: bool)
    ensures clean <==> forall i :: 0 <= i < |files| ==> CleanFile(d, demangle, files[i])
    ensures clean ==> Views(kernelInfo) == MergeAll([], AllRecords(d, demangle, files))
    ensures clean ==> totalExecuteTime == AllTimes(d, files)
  {
    hide ReadAll, Clean, Merge, MergeAll;
    totalExecuteTime, kernelInfo, clean := 0.0, [], true;
    MergeNone([]);
    for i := 0 to |files|
      invariant Apart(kernelInfo) && fresh(set k | k in kernelInfo)
      invariant Views(kernelInfo) == MergeAll([], AllRecords(d, demangle, files[..i]))
      invariant totalExecuteTime == AllTimes(d, files[..i])
      invariant forall j :: 0 <= j < i ==> CleanFile(d, demangle, files[j])
    {
      assert files[..i + 1][..i] == files[..i];
      ghost var records := AllRecords(d, demangle, files[..i]);
      var file := new InputFile(files[i]);
      var fileExecuteTime := 0.0;
      var ok, data := file.Fread(8);
      if ok {
        fileExecuteTime := d.value(FromBytes(data));
      }
      totalExecuteTime := totalExecuteTime + fileExecuteTime;
      kernelInfo, clean := FillInfo(d, demangle, file, kernelInfo);
      MergeConcat([], records, FileRecords(d, demangle, files[i]));
      if !clean {
        return;
      }
    }
    assert files[..|files|] == files;
  }

  /** Where the records of a file start; a file too short for its header has none. */
  function HeaderEnd(file: Bytes): nat {
    if |file| < 8 then |file| else 8
  }

  function FileRecords(d: Doubles, demangle: Bytes -> Bytes, file: Bytes): seq<Kernel> {
    ReadAll(d, demangle, file, HeaderEnd(file))
  }

  predicate CleanFile(d: Doubles, demangle: Bytes -> Bytes, file: Bytes) {
    Clean(d, demangle, file, HeaderEnd(file))
  }

  function AllRecords(d: Doubles, demangle: Bytes -> Bytes, files: seq<Bytes>): seq<Kernel> {
    if files == [] then [] else
      AllRecords(d, demangle, files[..|files| - 1]) + FileRecords(d, demangle, files[|files| - 1])
  }

  function AllTimes(d: Doubles, files: seq<Bytes>): real {
    if files == [] then 0.0 else
      AllTimes(d, files[..|files| - 1])
        + (if |files[|files| - 1]| < 8 then 0.0 else d.value(FromBytes(files[|files| - 1][..8])))
  }

  function WrittenFiles(d: Doubles, totals: seq<real>, lists: seq<seq<Kernel>>): seq<Bytes>
    requires |totals| == |lists|
  {
    seq(|lists|, i requires 0 <= i < |lists| => File(d, totals[i], lists[i]))
  }

  function AllDemangled(demangle: Bytes -> Bytes, lists: seq<seq<Kernel>>): seq<Kernel> {
    if lists == [] then [] else AllDemangled(demangle, lists[..|lists| - 1]) + Demangled(demangle, lists[|lists| - 1])
  }

  function SumTimes(totals: seq<real>): real {
    if totals == [] then 0.0 else SumTimes(totals[..|totals| - 1]) + totals[|totals| - 1]
  }

  /** Reading what any number of processes wrote gives back all their records and the sum of their run times. */
  lemma {:induction false} WrittenFilesRead(d: Doubles, demangle: Bytes -> Bytes, totals: seq<real>,
      lists: seq<seq<Kernel>>)
    requires |totals| == |lists| && (forall i :: 0 <= i < |totals| ==> Holds(d, totals[i]))
    requires forall i, j :: 0 <= i < |lists| && 0 <= j < |lists[i]| ==> Writable(d, lists[i][j])
    ensures forall i :: 0 <= i < |lists| ==> CleanFile(d, demangle, WrittenFiles(d, totals, lists)[i])
    ensures AllRecords(d, demangle, WrittenFiles(d, totals, lists)) == AllDemangled(demangle, lists)
    ensures AllTimes(d, WrittenFiles(d, totals, lists)) == SumTimes(totals)
    decreases |lists|
  {
    hide Writable, Holds, ReadAll, Clean, File;
    if lists != [] {
      var n := |lists| - 1;
      var files := WrittenFiles(d, totals, lists);
      assert files[..n] == WrittenFiles(d, totals[..n], lists[..n]);
      WrittenFilesRead(d, demangle, totals[..n], lists[..n]);
      FileRoundTrip(d, demangle, totals[n], lists[n]);
      forall i | 0 <= i < |lists| ensures CleanFile(d, demangle, files[i]) {
        if i < n { assert files[i] == WrittenFiles(d, totals[..n], lists[..n])[i]; }
      }
    }
  }

  /** A file too short for its header adds nothing. */
  lemma ShortFile(d: Doubles, demangle: Bytes -> Bytes, file: Bytes)
    requires |file| < 8
    ensures AllTimes(d, [file]) == 0.0 && FileRecords(d, demangle, file) == [] && CleanFile(d, demangle, file)
  {
    OneFile(d, file);
    NothingAtEnd(d, demangle, file, |file|);
  }

  /** The reader's totals over everything but regions. */
  method KernelTotals(kernelInfo: seq<KernelPerformanceInfo>) returns (totalKernelsTime: real, totalKernelsCalls: nat)
    ensures totalKernelsTime == KernelTime(Views(kernelInfo))
    ensures totalKernelsCalls == KernelCalls(Views(kernelInfo)) % WORD64
  {
    totalKernelsTime, totalKernelsCalls := 0.0, 0;
    for i := 0 to |kernelInfo|
      invariant totalKernelsTime == KernelTime(Views(kernelInfo)[..i])
      invariant totalKernelsCalls == KernelCalls(Views(kernelInfo)[..i]) % WORD64
    {
      assert Views(kernelInfo)[..i + 1][..i] == Views(kernelInfo)[..i];
      if kernelInfo[i].kType != Region {
        AddWord(KernelCalls(Views(kernelInfo)[..i]), kernelInfo[i].callCount);
        totalKernelsTime := totalKernelsTime + kernelInfo[i].time;
        totalKernelsCalls := (totalKernelsCalls + kernelInfo[i].callCount) % WORD64;
      }
    }
    assert Views(kernelInfo)[..|kernelInfo|] == Views(kernelInfo);
  }

  /** Every record read has a call count of 64 bits. */
  lemma ReadCounted(d: Doubles, demangle: Bytes -> Bytes, file: Bytes, pos: nat)
    requires pos <= |file|
    ensures var r := ReadRecord(d, demangle, file, pos); r.Loaded? ==> r.kernel.callCount < WORD64
  {
    hide FromBytes;
    Widths();
  }

  lemma {:induction false} AllCounted(d: Doubles, demangle: Bytes -> Bytes, file: Bytes, pos: nat)
    requires pos <= |file|
    ensures Counted(ReadAll(d, demangle, file, pos))
    decreases |file| - pos
  {
    hide ReadRecord;
    ReadCounted(d, demangle, file, pos);
    match ReadRecord(d, demangle, file, pos)
    case Loaded(_, next) => AllCounted(d, demangle, file, next);
    case Skipped(next) => AllCounted(d, demangle, file, next);
    case EndOfFile =>
    case Overrun =>
  }

  lemma {:induction false} FilesCounted(d: Doubles, demangle: Bytes -> Bytes, files: seq<Bytes>)
    ensures Counted(AllRecords(d, demangle, files))
  {
    hide ReadAll;
    if files != [] {
      FilesCounted(d, demangle, files[..|files| - 1]);
      AllCounted(d, demangle, files[|files| - 1], HeaderEnd(files[|files| - 1]));
    }
  }

  /** The reader up to its table: all files, the sort, the totals. The totals are those of the records whose name
      was first read as a kernel's; `sorted` is any rearrangement of the list. */
  method ReaderSums(d: Doubles, demangle: Bytes -> Bytes, files: seq<Bytes>)
    returns (totalExecuteTime: real, totalKernelsTime: real, totalKernelsCalls: nat, clean: bool)
    ensures clean <==> forall i :: 0 <= i < |files| ==> CleanFile(d, demangle, files[i])
    ensures clean ==> totalExecuteTime == AllTimes(d, files)
    ensures clean ==> totalKernelsTime == FiledTime(AllRecords(d, demangle, files))
    ensures clean ==> totalKernelsCalls == FiledCalls(AllRecords(d, demangle, files)) % WORD64
  {
    hide AllRecords, CleanFile, MergeAll, KernelTime, KernelCalls, FiledTime, FiledCalls;
    totalKernelsTime, totalKernelsCalls := 0.0, 0;
    var kernelInfo;
    totalExecuteTime, kernelInfo, clean := ReadFiles(d, demangle, files);
    if clean {
      FilesCounted(d, demangle, files);
      TotalsAre(AllRecords(d, demangle, files));
      var sorted :| multiset(sorted) == multiset(kernelInfo);
      SortedViews(kernelInfo, sorted);
      SortedTotals(Views(kernelInfo), Views(sorted));
      totalKernelsTime, totalKernelsCalls := KernelTotals(sorted);
    }
  }

  lemma {:induction false} SortedViews(a: seq<KernelPerformanceInfo>, b: seq<KernelPerformanceInfo>)
    requires multiset(a) == multiset(b)
    ensures multiset(Views(a)) == multiset(Views(b))
    decreases |a|
  {
    if a == [] {
      assert |multiset(b)| == 0;
      assert a == b;
    } else {
      var n := |a| - 1;
      assert a[n] in multiset(b);
      var j :| 0 <= j < |b| && b[j] == a[n];
      WithoutBag(a, n);
      WithoutBag(b, j);
      assert multiset(Without(a, n)) == multiset(a) - multiset{a[n]};
      assert multiset(Without(b, j)) == multiset(b) - multiset{b[j]};
      SortedViews(Without(a, n), Without(b, j));
      ViewsWithout(a, n);
      ViewsWithout(b, j);
      WithoutBag(Views(a), n);
      WithoutBag(Views(b), j);
    }
  }

  lemma ViewsWithout(a: seq<KernelPerformanceInfo>, i: nat)
    requires i < |a|
    ensures Views(Without(a, i)) == Without(Views(a), i)
  {
  }

  // ---- The order of the files ----

  lemma AppendFile(d: Doubles, demangle: Bytes -> Bytes, files: seq<Bytes>, last: Bytes)
    ensures AllRecords(d, demangle, files + [last]) == AllRecords(d, demangle, files) + FileRecords(d, demangle, last)
    ensures AllTimes(d, files + [last]) == AllTimes(d, files) + AllTimes(d, [last])
  {
    hide FileRecords;
    assert (files + [last])[..|files|] == files;
    OneFile(d, last);
  }

  lemma {:induction false} TakeOutFile(d: Doubles, demangle: Bytes -> Bytes, files: seq<Bytes>, i: nat)
    requires i < |files|
    ensures multiset(AllRecords(d, demangle, files))
      == multiset(AllRecords(d, demangle, Without(files, i))) + multiset(FileRecords(d, demangle, files[i]))
    ensures AllTimes(d, files) == AllTimes(d, Without(files, i)) + AllTimes(d, [files[i]])
    decreases |files|
  {
    hide FileRecords, AllRecords, AllTimes;
    var pre, last := files[..|files| - 1], files[|files| - 1];
    assert files == pre + [last];
    AppendFile(d, demangle, pre, last);
    if i == |pre| {
      assert Without(files, i) == pre;
    } else {
      TakeOutFile(d, demangle, pre, i);
      assert Without(files, i) == Without(pre, i) + [last];
      AppendFile(d, demangle, Without(pre, i), last);
    }
  }

  lemma OneFile(d: Doubles, file: Bytes)
    ensures AllTimes(d, [file]) == if |file| < 8 then 0.0 else d.value(FromBytes(file[..8]))
  {
    var files := [file];
    assert files[..0] == [];
  }

  /** In whatever order the files are given, the same records are read and the run times have the same sum. */
  lemma {:induction false} FilesOrder(d: Doubles, demangle: Bytes -> Bytes, a: seq<Bytes>, b: seq<Bytes>)
    requires multiset(a) == multiset(b)
    ensures multiset(AllRecords(d, demangle, a)) == multiset(AllRecords(d, demangle, b))
    ensures AllTimes(d, a) == AllTimes(d, b)
    decreases |a|
  {
    hide AllRecords, AllTimes, FileRecords, Without;
    if a == [] {
      assert |multiset(b)| == 0;
      assert a == b;
    } else {
      var n := |a| - 1;
      assert a[n] in multiset(b);
      var j :| 0 <= j < |b| && b[j] == a[n];
      WithoutBag(a, n);
      WithoutBag(b, j);
      assert multiset(Without(a, n)) == multiset(a) - multiset{a[n]};
      assert multiset(Without(b, j)) == multiset(b) - multiset{b[j]};
      Shorter(a, n);
      FilesOrder(d, demangle, Without(a, n), Without(b, j));
      TakeOutFile(d, demangle, a, n);
      TakeOutFile(d, demangle, b, j);
    }
  }

  /** So names, times and calls of the merged list, its grand total and the sum of the run times do not depend on
      the order of the files. */
  lemma FileOrderIrrelevant(d: Doubles, demangle: Bytes -> Bytes, a: seq<Bytes>, b: seq<Bytes>, name: Bytes)
    requires multiset(a) == multiset(b)
    ensures var x, y := MergeAll([], AllRecords(d, demangle, a)), MergeAll([], AllRecords(d, demangle, b));
      var i, j := FindIndex(x, name), FindIndex(y, name);
      && (i >= 0 <==> j >= 0)
      && (i >= 0 ==> x[i].time == y[j].time && x[i].callCount == y[j].callCount)
      && NamedTime(x) == NamedTime(y)
    ensures AllTimes(d, a) == AllTimes(d, b)
  {
    hide AllRecords, AllTimes, MergeAll, FindIndex, NamedTime;
    FilesOrder(d, demangle, a, b);
    FilesCounted(d, demangle, a);
    FilesCounted(d, demangle, b);
    OrderIrrelevant(AllRecords(d, demangle, a), AllRecords(d, demangle, b), name);
    GrandTotalOrder(AllRecords(d, demangle, a), AllRecords(d, demangle, b));
  }
}
