/** The names frames are given. */
module Names {
  import opened CallTree

  datatype Space = HostSpace | CudaSpace | HipSpace | SyclSpace | OpenMPTargetSpace

  function SpaceName(s: Space): string {
    match s
    case HostSpace => "HOST"
    case CudaSpace => "CUDA"
    case SyclSpace => "SYCL"
    case OpenMPTargetSpace => "OpenMPTarget"
    case HipSpace => "HIP"
  }

  /** Where the first slash of a name is, or its length. */
  function SlashAt(name: string): (pos: nat)
    ensures pos <= |name| && '/' !in name[..pos] && (pos < |name| ==> name[pos] == '/')
  {
    if name == "" then 0
    else if name[0] == '/' then 0
    else
      var pos := SlashAt(name[1..]);
      assert name[..pos + 1] == [name[0]] + name[1..][..pos];
      pos + 1
  }

  /** A functor name and a tag name, joined by a slash, are demangled apart. */
  function DemangleKokkos(demangle: string -> string, name: string): string {
    var pos := SlashAt(name);
    if 0 < pos < |name| then demangle(name[..pos]) + "/" + demangle(name[pos + 1..]) else demangle(name)
  }

  function DeepCopyName(dst: Space, dstName: string, src: Space, srcName: string): string {
    "\"" + dstName + "\"=\"" + srcName + "\" (" + SpaceName(dst) + "->" + SpaceName(src) + ")"
  }

  /** What a frame is to be called: a functor name and a tag name keep the slash between them; a name without a slash,
      or with nothing before it, is one name. */
  ghost predicate CalledFor(demangle: string -> string, name: string, result: string) {
    && (forall functor, tag :: functor != "" && '/' !in functor && name == functor + "/" + tag ==>
          result == demangle(functor) + "/" + demangle(tag))
    && ('/' !in name || name[0] == '/' ==> result == demangle(name))
  }

  lemma DemangledSo(demangle: string -> string, name: string)
    ensures CalledFor(demangle, name, DemangleKokkos(demangle, name))
  {
    var pos := SlashAt(name);
    forall functor, tag | functor != "" && '/' !in functor && name == functor + "/" + tag
      ensures pos == |functor| && name[..pos] == functor && name[pos + 1..] == tag
    {
      assert name[|functor|] == '/';
      assert functor == name[..|functor|];
    }
  }

  lemma TaggedName(demangle: string -> string, functor: string, tag: string)
    requires functor != "" && '/' !in functor
    ensures DemangleKokkos(demangle, functor + "/" + tag) == (demangle(functor) + "/") + demangle(tag)
  {
    DemangledSo(demangle, functor + "/" + tag);
  }

  /** Kernels of one functor begun in one frame are different nodes exactly if the demangler keeps their tags apart. */
  lemma TagsApart(demangle: string -> string, before: Path, kind: StackKind, functor: string, tag: string, tag': string)
    requires functor != "" && '/' !in functor
    ensures before + [Key(kind, DemangleKokkos(demangle, functor + "/" + tag))]
         == before + [Key(kind, DemangleKokkos(demangle, functor + "/" + tag'))]
       <==> demangle(tag) == demangle(tag')
  {
    hide DemangleKokkos;
    TaggedName(demangle, functor, tag);
    TaggedName(demangle, functor, tag');
    var x, y := DemangleKokkos(demangle, functor + "/" + tag), DemangleKokkos(demangle, functor + "/" + tag');
    if before + [Key(kind, x)] == before + [Key(kind, y)] {
      assert (before + [Key(kind, x)])[|before|] == (before + [Key(kind, y)])[|before|];
      SameStart(demangle(functor) + "/", demangle(tag), demangle(tag'));
    }
  }

  lemma SameStart(start: string, x: string, y: string)
    requires start + x == start + y
    ensures x == y
  {
    assert (start + x)[|start|..] == x && (start + y)[|start|..] == y;
  }

  lemma SameEnd(x: string, y: string, end: string)
    requires x + end == y + end
    ensures x == y
  {
    assert (x + end)[..|x|] == x && (y + end)[..|y|] == y;
  }

  /** The first mark splits a string in one way only. */
  lemma {:induction false} FirstMark(a: string, x: string, b: string, y: string, mark: char)
    requires a + [mark] + x == b + [mark] + y && mark !in a && mark !in b
    ensures a == b && x == y
    decreases a
  {
    var s, s' := a + [mark] + x, b + [mark] + y;
    assert (a == "" <==> s[0] == mark) && (b == "" <==> s'[0] == mark);
    if a == "" {
      assert s[1..] == x && s'[1..] == y;
    } else {
      assert s[1..] == a[1..] + [mark] + x && s'[1..] == b[1..] + [mark] + y;
      FirstMark(a[1..], x, b[1..], y, mark);
      assert a == [s[0]] + a[1..] && b == [s'[0]] + b[1..];
    }
  }

  lemma CopyShape(dst: Space, dstName: string, src: Space, srcName: string)
    ensures DeepCopyName(dst, dstName, src, srcName) == "\"" + (dstName + ['"'] + ("=\"" + (srcName + ['"'] + (" (" +
      (SpaceName(dst) + ['-'] + (">" + (SpaceName(src) + ")")))))))
  {
    hide SpaceName;
  }

  /** A copy's name tells apart copies with different labels or spaces, sources and destinations included. */
  lemma CopyNamesApart(dst: Space, dstName: string, src: Space, srcName: string,
      dst': Space, dstName': string, src': Space, srcName': string)
    requires '"' !in dstName && '"' !in srcName && '"' !in dstName' && '"' !in srcName'
    ensures DeepCopyName(dst, dstName, src, srcName) == DeepCopyName(dst', dstName', src', srcName')
       <==> dst == dst' && dstName == dstName' && src == src' && srcName == srcName'
  {
    hide SpaceName, DeepCopyName;
    if DeepCopyName(dst, dstName, src, srcName) == DeepCopyName(dst', dstName', src', srcName') {
      CopyShape(dst, dstName, src, srcName);
      CopyShape(dst', dstName', src', srcName');
      var from, from' := SpaceName(src) + ")", SpaceName(src') + ")";
      var spaces, spaces' := SpaceName(dst) + ['-'] + (">" + from), SpaceName(dst') + ['-'] + (">" + from');
      var rest, rest' := srcName + ['"'] + (" (" + spaces), srcName' + ['"'] + (" (" + spaces');
      SameStart("\"", dstName + ['"'] + ("=\"" + rest), dstName' + ['"'] + ("=\"" + rest'));
      FirstMark(dstName, "=\"" + rest, dstName', "=\"" + rest', '"');
      SameStart("=\"", rest, rest');
      FirstMark(srcName, " (" + spaces, srcName', " (" + spaces', '"');
      SameStart(" (", spaces, spaces');
      NoDash(dst);
      NoDash(dst');
      FirstMark(SpaceName(dst), ">" + from, SpaceName(dst'), ">" + from', '-');
      SameStart(">", from, from');
      SameEnd(SpaceName(src), SpaceName(src'), ")");
      SpaceNamesApart(dst, dst');
      SpaceNamesApart(src, src');
    }
  }

  lemma NoDash(s: Space)
    ensures '-' !in SpaceName(s)
  {
  }

  lemma SpaceNamesApart(s: Space, s': Space)
    requires SpaceName(s) == SpaceName(s')
    ensures s == s'
  {
    assert |SpaceName(s)| > 1 && |SpaceName(s')| > 1;
    assert SpaceName(s)[0] == SpaceName(s')[0] && SpaceName(s)[1] == SpaceName(s')[1];
  }

  /** The destination comes first: a copy to a device, as it is named. */
  lemma CopyToDevice()
    ensures DeepCopyName(CudaSpace, "a", HostSpace, "b") == "\"a\"=\"b\" (CUDA->HOST)"
  {
  }

  /** The other spaces as they are named. */
  lemma OtherSpaces()
    ensures SpaceName(HipSpace) == "HIP" && SpaceName(SyclSpace) == "SYCL"
    ensures SpaceName(OpenMPTargetSpace) == "OpenMPTarget"
  {
  }
}
