/** Values of a call tree: what the nodes of one rank hold, addressed by their path from the root. */
module CallTree {

  datatype StackKind = For | Reduce | Scan | Region | Copy

  /** Children of a node are kept apart by kind and name. */
  datatype Key = Key(kind: StackKind, name: string)

  type Path = seq<Key>

  const ROOT_KEY := Key(Region, "")

  /** The fields of a node that change. Times are integer nanoseconds. */
  datatype Data = Data(
    totalRuntime: int,
    totalKokkosRuntime: int,
    maxRuntime: int,
    avgRuntime: real,
    commSize: nat,
    numberOfCalls: int,
    totalNumberOfKernelCalls: int,
    startTime: int
  )

  /** A node just constructed. */
  const NEW_NODE := Data(0, 0, 0, 0.0, 1, 0, 0, 0)

  type Tree = map<Path, Data>

  function Parent(p: Path): Path
    requires p != []
  {
    p[..|p| - 1]
  }

  function Last(p: Path): Key
    requires p != []
  {
    p[|p| - 1]
  }

  function KeyOf(p: Path): Key {
    if p == [] then ROOT_KEY else Last(p)
  }

  /** Every node but the root hangs below a node of the tree. */
  ghost predicate WellFormed(t: Tree) {
    [] in t && forall p {:trigger Parent(p)} :: p in t && p != [] ==> Parent(p) in t
  }

  ghost function Children(t: Tree, p: Path): set<Path> {
    set q | q in t && q != [] && Parent(q) == p
  }

  ghost function ChildKeys(t: Tree, p: Path): set<Key> {
    set q | q in Children(t, p) :: Last(q)
  }

  /** The child of `p` on the way to a node below it. */
  ghost function ChildTowards(p: Path): Path -> Path {
    q => if |p| < |q| then q[..|p| + 1] else q
  }

  ghost function Subtree(t: Tree, p: Path): set<Path> {
    set q | q in t && p <= q
  }

  ghost function TotalAt(t: Tree): Path -> int {
    p => if p in t then t[p].totalRuntime else 0
  }

  ghost function KokkosAt(t: Tree): Path -> int {
    p => if p in t then t[p].totalKokkosRuntime else 0
  }

  ghost function CallsAt(t: Tree): Path -> int {
    p => if p in t then t[p].numberOfCalls else 0
  }
  
  ghost function KernelCallsAt(t: Tree): Path -> int {
    p => if p in t then t[p].totalNumberOfKernelCalls else 0
  }

  /** The tree after the child `k` of `p` has been looked up: a missing child is created empty. */
  function EnsureChild(t: Tree, p: Path, k: Key): Tree {
    if p + [k] in t then t else t[p + [k] := NEW_NODE]
  }

  lemma ParentOfChild(p: Path, k: Key)
    ensures p + [k] != [] && Parent(p + [k]) == p && Last(p + [k]) == k
  {
  }

  /** In a well-formed tree every prefix of a node is a node. */
  lemma {:induction false} PrefixClosed(t: Tree, q: Path, p: Path)
    requires WellFormed(t) && q in t && p <= q
    ensures p in t
    decreases |q|
  {
    if p != q {
      assert p <= Parent(q);
      PrefixClosed(t, Parent(q), p);
    }
  }
}
