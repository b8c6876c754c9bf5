/** The string order of names and the order of siblings in the printed report. */
module Orders {
  import opened CallTree

  /** Lexicographic order of names. */
  predicate NameLess(a: string, b: string) {
    if b == "" then false
    else if a == "" then true
    else if a[0] != b[0] then a[0] < b[0]
    else NameLess(a[1..], b[1..])
  }

  lemma {:induction false} NameTotal(a: string, b: string)
    ensures !(NameLess(a, b) && NameLess(b, a)) && !NameLess(a, a)
    ensures a != b ==> NameLess(a, b) || NameLess(b, a)
  {
    if a != "" {
      NameTotal(a[1..], if b != "" then b[1..] else "");
      if b != "" && a[0] == b[0] && a != b {
        assert a == [a[0]] + a[1..] && b == [b[0]] + b[1..];
      }
    }
  }

  lemma {:induction false} NameTransitive(a: string, b: string, c: string)
    requires NameLess(a, b) && NameLess(b, c)
    ensures NameLess(a, c)
  {
    if a != "" && a[0] == b[0] && b[0] == c[0] {
      NameTransitive(a[1..], b[1..], c[1..]);
    }
  }

  /** `a` is a proper beginning of `b`, or at the first place where they differ it has the smaller character. */
  ghost predicate NamePrecedes(a: string, b: string) {
    (a <= b && a != b) || exists i :: 0 <= i < |a| && i < |b| && a[..i] == b[..i] && a[i] < b[i]
  }

  lemma {:induction false} NameLessIs(a: string, b: string)
    ensures NameLess(a, b) <==> NamePrecedes(a, b)
  {
    if a != "" && b != "" {
      if a[0] == b[0] {
        NameLessIs(a[1..], b[1..]);
        SameHead(a, b);
      } else if a[0] < b[0] {
        assert a[..0] == b[..0];
      }
    }
  }

  lemma SameHead(a: string, b: string)
    requires a != "" && b != "" && a[0] == b[0]
    ensures NamePrecedes(a, b) <==> NamePrecedes(a[1..], b[1..])
  {
    assert a == [a[0]] + a[1..] && b == [b[0]] + b[1..];
    if i :| 0 <= i < |a| && i < |b| && a[..i] == b[..i] && a[i] < b[i] {
      assert a[1..][..i - 1] == a[..i][1..] && b[1..][..i - 1] == b[..i][1..];
    }
    if i :| 0 <= i < |a[1..]| && i < |b[1..]| && a[1..][..i] == b[1..][..i] && a[1..][i] < b[1..][i] {
      assert a[..i + 1] == [a[0]] + a[1..][..i] && b[..i + 1] == [b[0]] + b[1..][..i];
    }
  }

  function Rank(k: StackKind): nat {
    match k
    case For => 0
    case Reduce => 1
    case Scan => 2
    case Region => 3
    case Copy => 4
  }

  /** Kinds come in the order they are declared in. */
  lemma KindsInOrder()
    ensures Rank(For) < Rank(Reduce) < Rank(Scan) < Rank(Region) < Rank(Copy)
  {
  }

  lemma SameRank(a: StackKind, b: StackKind)
    requires Rank(a) == Rank(b)
    ensures a == b
  {
  }

  /** The order children are kept in: by kind, then by name. */
  predicate KeyLess(a: Key, b: Key) {
    if a.kind != b.kind then Rank(a.kind) < Rank(b.kind) else NameLess(a.name, b.name)
  }

  /** Pairs of a name and a kind, in that order. */
  predicate PairLess(a: Key, b: Key) {
    if a.name != b.name then NameLess(a.name, b.name) else Rank(a.kind) < Rank(b.kind)
  }

  predicate Least(keys: set<Key>, less: (Key, Key) -> bool, k: Key) {
    k in keys && forall j :: j in keys && j != k ==> less(k, j)
  }

  /** A strict total order. */
  ghost predicate Total(less: (Key, Key) -> bool) {
    && (forall a, b :: a != b ==> less(a, b) || less(b, a))
    && (forall a, b :: !(less(a, b) && less(b, a)))
    && (forall a, b, c :: less(a, b) && less(b, c) ==> less(a, c))
  }

  lemma {:induction false} LeastExists(keys: set<Key>, less: (Key, Key) -> bool)
    requires keys != {} && Total(less)
    ensures exists k :: Least(keys, less, k)
    decreases |keys|
  {
    var c :| c in keys;
    if keys == {c} {
      assert Least(keys, less, c);
    } else {
      var rest := keys - {c};
      assert rest != {};
      LeastExists(rest, less);
      var k :| Least(rest, less, k);
      assert Least(keys, less, if less(c, k) then c else k);
    }
  }

  lemma LeastByKey(keys: set<Key>)
    requires keys != {}
    ensures exists k :: Least(keys, KeyLess, k)
  {
    hide NameLess;
    forall a, b ensures (a != b ==> KeyLess(a, b) || KeyLess(b, a)) && !(KeyLess(a, b) && KeyLess(b, a)) {
      NameTotal(a.name, b.name);
      if Rank(a.kind) == Rank(b.kind) { SameRank(a.kind, b.kind); }
    }
    forall a, b, c | KeyLess(a, b) && KeyLess(b, c) ensures KeyLess(a, c) {
      if a.kind == b.kind == c.kind { NameTransitive(a.name, b.name, c.name); }
    }
    LeastExists(keys, KeyLess);
  }

  lemma LeastByPair(keys: set<Key>)
    requires keys != {}
    ensures exists k :: Least(keys, PairLess, k)
    ensures forall j, k :: Least(keys, PairLess, j) && Least(keys, PairLess, k) ==> j == k
  {
    hide NameLess;
    forall a, b ensures (a != b ==> PairLess(a, b) || PairLess(b, a)) && !(PairLess(a, b) && PairLess(b, a)) {
      NameTotal(a.name, b.name);
      if Rank(a.kind) == Rank(b.kind) { SameRank(a.kind, b.kind); }
    }
    forall a, b, c | PairLess(a, b) && PairLess(b, c) ensures PairLess(a, c) {
      NameTotal(a.name, b.name);
      if a.name != b.name && b.name != c.name { NameTransitive(a.name, b.name, c.name); }
    }
    LeastExists(keys, PairLess);
  }

  /** The report's order of siblings: longer total first, then by name. Kinds are not compared. */
  ghost predicate ByTime(t: Tree, a: Path, b: Path) {
    if TotalAt(t)(a) != TotalAt(t)(b) then TotalAt(t)(a) > TotalAt(t)(b) else NameLess(KeyOf(a).name, KeyOf(b).name)
  }

  /** Of two siblings the one that took longer, or took as long and has the smaller name. */
  ghost predicate Sooner(t: Tree, a: Path, b: Path) {
    || TotalAt(t)(a) > TotalAt(t)(b)
    || (TotalAt(t)(a) == TotalAt(t)(b) && NamePrecedes(KeyOf(a).name, KeyOf(b).name))
  }

  lemma ByTimeIs(t: Tree, a: Path, b: Path)
    ensures ByTime(t, a, b) <==> Sooner(t, a, b)
  {
    NameLessIs(KeyOf(a).name, KeyOf(b).name);
  }

  /** Neither comes before the other: the report keeps only one of the two. */
  ghost predicate Tied(t: Tree, a: Path, b: Path) {
    TotalAt(t)(a) == TotalAt(t)(b) && KeyOf(a).name == KeyOf(b).name
  }

  lemma ByTimeTotal(t: Tree, a: Path, b: Path)
    ensures !(ByTime(t, a, b) && ByTime(t, b, a))
    ensures Tied(t, a, b) <==> !ByTime(t, a, b) && !ByTime(t, b, a)
  {
    NameTotal(KeyOf(a).name, KeyOf(b).name);
    NameTotal(KeyOf(b).name, KeyOf(a).name);
  }

  lemma ByTimeTransitive(t: Tree, a: Path, b: Path, c: Path)
    requires ByTime(t, a, b) && (ByTime(t, b, c) || Tied(t, b, c))
    ensures ByTime(t, a, c)
  {
    if ByTime(t, b, c) && TotalAt(t)(a) == TotalAt(t)(b) == TotalAt(t)(c) {
      NameTransitive(KeyOf(a).name, KeyOf(b).name, KeyOf(c).name);
    }
  }

  /** `ByTime` refined by kind: which of two siblings survives a tie. */
  ghost predicate Before(t: Tree, a: Path, b: Path) {
    ByTime(t, a, b) || (Tied(t, a, b) && Rank(KeyOf(a).kind) < Rank(KeyOf(b).kind))
  }

  /** Distinct nodes below one parent. */
  ghost predicate Siblings(s: set<Path>) {
    forall a, b :: a in s && b in s ==> a != [] && b != [] && Parent(a) == Parent(b)
  }

  lemma SameKey(a: Path, b: Path)
    requires a != [] && b != [] && Parent(a) == Parent(b) && Last(a) == Last(b)
    ensures a == b
  {
    assert a == Parent(a) + [Last(a)] && b == Parent(b) + [Last(b)];
  }

  lemma BeforeTotal(t: Tree, s: set<Path>, a: Path, b: Path)
    requires Siblings(s) && a in s && b in s && a != b
    ensures Before(t, a, b) || Before(t, b, a)
  {
    ByTimeTotal(t, a, b);
    if Tied(t, a, b) && Rank(KeyOf(a).kind) == Rank(KeyOf(b).kind) {
      SameRank(KeyOf(a).kind, KeyOf(b).kind);
      SameKey(a, b);
    }
  }

  lemma BeforeTransitive(t: Tree, a: Path, b: Path, c: Path)
    requires Before(t, a, b) && Before(t, b, c)
    ensures Before(t, a, c)
  {
    if ByTime(t, a, b) {
      ByTimeTransitive(t, a, b, c);
    } else if ByTime(t, b, c) {
      assert TotalAt(t)(a) == TotalAt(t)(b) && KeyOf(a).name == KeyOf(b).name;
    }
  }

  ghost predicate IsFirst(t: Tree, s: set<Path>, m: Path) {
    m in s && forall c :: c in s && c != m ==> Before(t, m, c)
  }

  lemma {:induction false} FirstExists(t: Tree, s: set<Path>)
    requires Siblings(s) && s != {}
    ensures exists m :: IsFirst(t, s, m)
    decreases |s|
  {
    var c :| c in s;
    if s == {c} {
      assert IsFirst(t, s, c);
    } else {
      assert s - {c} != {};
      FirstExists(t, s - {c});
      var m :| IsFirst(t, s - {c}, m);
      BeforeTotal(t, s, m, c);
      if Before(t, c, m) {
        forall d | d in s && d != c ensures Before(t, c, d) {
          if d != m { BeforeTransitive(t, c, m, d); }
        }
        assert IsFirst(t, s, c);
      } else {
        assert IsFirst(t, s, m);
      }
    }
  }

  ghost function First(t: Tree, s: set<Path>): (m: Path)
    requires Siblings(s) && s != {}
    ensures IsFirst(t, s, m)
  {
    FirstExists(t, s);
    var m :| IsFirst(t, s, m);
    m
  }

  ghost function After(t: Tree, s: set<Path>, m: Path): set<Path> {
    set c | c in s && ByTime(t, m, c)
  }

  /** The siblings the report visits, in its order: of tied siblings only the one of lowest kind. */
  ghost function Ordered(t: Tree, s: set<Path>): (r: seq<Path>)
    requires Siblings(s)
    decreases |s|
  {
    if s == {} then []
    else
      var m := First(t, s);
      ByTimeTotal(t, m, m);
      assert After(t, s, m) < s;
      SmallerSet(After(t, s, m), s);
      [m] + Ordered(t, After(t, s, m))
  }

  lemma {:induction false} SmallerSet<T>(a: set<T>, b: set<T>)
    requires a < b
    ensures |a| < |b|
  {
    var x :| x in b && x !in a;
    assert |b - {x}| == |b| - 1;
    SmallerOrEqual(a, b - {x});
  }

  lemma {:induction false} SmallerOrEqual<T>(a: set<T>, b: set<T>)
    requires a <= b
    ensures |a| <= |b|
    decreases a
  {
    if a != {} {
      var x :| x in a;
      SmallerOrEqual(a - {x}, b - {x});
    }
  }

  /** Insertion into the ordered set: a tied entry is kept and the new one dropped. */
  ghost function Insert(t: Tree, list: seq<Path>, c: Path): seq<Path> {
    if list == [] then [c]
    else if ByTime(t, c, list[0]) then [c] + list
    else if ByTime(t, list[0], c) then [list[0]] + Insert(t, list[1..], c)
    else list
  }

  lemma SiblingsPart(s: set<Path>, part: set<Path>)
    requires Siblings(s) && part <= s
    ensures Siblings(part)
  {
  }

  lemma OrderedUnfold(t: Tree, s: set<Path>)
    requires Siblings(s) && s != {}
    ensures |After(t, s, First(t, s))| < |s| && Siblings(After(t, s, First(t, s)))
    ensures Ordered(t, s) == [First(t, s)] + Ordered(t, After(t, s, First(t, s)))
  {
    ByTimeTotal(t, First(t, s), First(t, s));
    SmallerSet(After(t, s, First(t, s)), s);
  }

  lemma InsertUnfold(t: Tree, m: Path, rest: seq<Path>, c: Path)
    ensures Insert(t, [m] + rest, c) ==
      if ByTime(t, c, m) then [c] + ([m] + rest) else if ByTime(t, m, c) then [m] + Insert(t, rest, c) else [m] + rest
  {
    assert ([m] + rest)[1..] == rest;
  }

  /** Inserting the siblings kind by kind builds the report's order. */
  lemma {:induction false} InsertOrdered(t: Tree, s: set<Path>, c: Path)
    requires Siblings(s + {c}) && c !in s
    requires forall e :: e in s && Tied(t, e, c) ==> Rank(KeyOf(e).kind) < Rank(KeyOf(c).kind)
    ensures Insert(t, Ordered(t, s), c) == Ordered(t, s + {c})
    decreases |s|
  {
    hide NameLess, ByTime, Tied, Rank, Ordered, Insert, Siblings, KeyOf;
    SiblingsPart(s + {c}, s);
    OrderedUnfold(t, s + {c});
    if s == {} {
      InsertFirst(t, c);
    } else {
      var m := First(t, s);
      OrderedUnfold(t, s);
      InsertUnfold(t, m, Ordered(t, After(t, s, m)), c);
      ByTimeTotal(t, m, c);
      if ByTime(t, c, m) {
        NewFirst(t, s, c);
      } else {
        SameFirst(t, s, c);
        if ByTime(t, m, c) {
          SiblingsPart(s + {c}, After(t, s, m) + {c});
          InsertOrdered(t, After(t, s, m), c);
        }
      }
    }
  }

  lemma InsertFirst(t: Tree, c: Path)
    requires Siblings({} + {c})
    ensures Insert(t, Ordered(t, {}), c) == Ordered(t, {} + {c})
  {
    hide ByTime;
    ByTimeTotal(t, c, c);
    FirstUnique(t, {c}, c);
    assert {} + {c} == {c} && After(t, {c}, c) == {};
  }

  lemma NewFirst(t: Tree, s: set<Path>, c: Path)
    requires Siblings(s + {c}) && c !in s && s != {} && ByTime(t, c, First(t, s))
    ensures First(t, s + {c}) == c && After(t, s + {c}, c) == s
  {
    hide NameLess, ByTime, Tied, Rank;
    var m := First(t, s);
    forall x | x in s ensures ByTime(t, c, x) {
      if x != m { ByTimeTransitive(t, c, m, x); }
    }
    ByTimeTotal(t, c, c);
    FirstUnique(t, s + {c}, c);
  }

  lemma SameFirst(t: Tree, s: set<Path>, c: Path)
    requires Siblings(s + {c}) && c !in s && s != {} && !ByTime(t, c, First(t, s))
    requires Tied(t, First(t, s), c) ==> Rank(KeyOf(First(t, s)).kind) < Rank(KeyOf(c).kind)
    ensures First(t, s + {c}) == First(t, s)
    ensures After(t, s + {c}, First(t, s)) == After(t, s, First(t, s)) + if ByTime(t, First(t, s), c) then {c} else {}
  {
    hide NameLess, ByTime, Tied, Rank;
    var m := First(t, s);
    ByTimeTotal(t, m, c);
    assert Before(t, m, c);
    FirstUnique(t, s + {c}, m);
  }

  lemma FirstUnique(t: Tree, s: set<Path>, m: Path)
    requires Siblings(s) && IsFirst(t, s, m)
    ensures First(t, s) == m
  {
    var f := First(t, s);
    ByTimeTotal(t, f, m);
  }
}
