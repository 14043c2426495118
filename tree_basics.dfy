/**
 * The technology-tree node (the `TechTree` struct) and the vocabulary the
 * tree operations are specified in: positions of nodes as paths of child
 * indices, pre-order on paths, pre-order walks, and replacing a subtree.
 */
module TreeBasics {
  import opened UnitTypes

  /** A node: its unit type, whether the player has it, whether its type may
      occur only once, and its ordered children (owned by value). */
  datatype Tree = Node(kind: UnitType, obtained: bool, unique: bool, subs: seq<Tree>)

  /** A node's position: the child indices followed from the root. */
  type Path = seq<nat>

  /** `TechTree{ t }` with every default: unobtained, unique, no children. */
  function Leaf(k: UnitType): (r: Tree)
    ensures r.kind == k && !r.obtained && r.unique && r.subs == []
  {
    Node(k, false, true, [])
  }

  /** `TechTree{ t, subs }`: unobtained and unique. */
  function Branch(k: UnitType, subs: seq<Tree>): (r: Tree)
    ensures r.kind == k && !r.obtained && r.unique && r.subs == subs
  {
    Node(k, false, true, subs)
  }

  /** `TechTree{ t, obtained, subs }`: unique. */
  function WithFlag(k: UnitType, obtained: bool, subs: seq<Tree>): (r: Tree)
    ensures r.kind == k && r.obtained == obtained && r.unique && r.subs == subs
  {
    Node(k, obtained, true, subs)
  }

  /** The default-constructed node. */
  function DefaultTree(): (r: Tree)
    ensures r.kind == NoneType && !r.obtained && r.unique && r.subs == []
  {
    Leaf(NoneType)
  }

  /** The sentinel for "no tree yet" and "no best move". */
  const NULL_TREE: Tree := Leaf(UnknownType)

  predicate HasSubs(t: Tree) { |t.subs| > 0 }

  /** `operator==` on trees looks at the unit types of the two roots only. */
  predicate SameType(a: Tree, b: Tree) { a.kind == b.kind }

  // ---------------------------------------------------------------- paths

  predicate ValidPath(t: Tree, p: Path)
    decreases p
  {
    p == [] || (p[0] < |t.subs| && ValidPath(t.subs[p[0]], p[1..]))
  }

  function At(t: Tree, p: Path): Tree
    requires ValidPath(t, p)
    decreases p
  {
    if p == [] then t else At(t.subs[p[0]], p[1..])
  }

  /** The three collecting traversals of the library: the leaves
      (`findLeafNodes`), the unobtained nodes whose ancestors are all obtained
      (`findNextObtainableNodes`), and the obtained nodes (`getObtainedNodes`). */
  datatype Mode = Leaves | Frontier | Obtained

  /** Whether a traversal in mode `m` reports node `n`. */
  predicate Keeps(m: Mode, n: Tree)
  {
    match m
    case Leaves => !HasSubs(n)
    case Frontier => !n.obtained
    case Obtained => n.obtained
  }

  /** Whether a traversal in mode `m` enters the children of `n`: only the
      frontier search stops below an unobtained node. */
  predicate Enters(m: Mode, n: Tree) { m.Frontier? ==> n.obtained }

  /** A valid path all of whose proper ancestors a traversal in mode `m` enters. */
  predicate Descends(t: Tree, p: Path, m: Mode)
    decreases p
  {
    p == [] || (p[0] < |t.subs| && Enters(m, t) && Descends(t.subs[p[0]], p[1..], m))
  }

  /** The positions a search reaches: with `ign` set it never descends below an
      unobtained node (that node itself is still reached). */
  predicate Visible(t: Tree, p: Path, ign: bool)
    decreases p
  {
    p == [] || (p[0] < |t.subs| && (!ign || t.obtained) && Visible(t.subs[p[0]], p[1..], ign))
  }

  predicate IsPrefix(p: Path, q: Path) { |p| <= |q| && q[..|p|] == p }

  /** Strict pre-order on positions: an ancestor comes before its descendants,
      and an earlier sibling's subtree before a later sibling's. */
  predicate PreLess(p: Path, q: Path)
    decreases |p|
  {
    if p == [] then q != []
    else q != [] && (p[0] < q[0] || (p[0] == q[0] && PreLess(p[1..], q[1..])))
  }

  lemma {:induction false} PreLessIrreflexive(p: Path)
    ensures !PreLess(p, p)
    decreases |p|
  {
    if p != [] { PreLessIrreflexive(p[1..]); }
  }

  lemma {:induction false} PreLessTransitive(p: Path, q: Path, s: Path)
    requires PreLess(p, q) && PreLess(q, s)
    ensures PreLess(p, s)
    decreases |p|
  {
    if p != [] && p[0] == q[0] && q[0] == s[0] {
      PreLessTransitive(p[1..], q[1..], s[1..]);
    }
  }

  lemma {:induction false} PreLessTotal(p: Path, q: Path)
    requires p != q
    ensures PreLess(p, q) || PreLess(q, p)
    decreases |p|
  {
    if p != [] && q != [] && p[0] == q[0] {
      assert p == [p[0]] + p[1..] && q == [q[0]] + q[1..];
      PreLessTotal(p[1..], q[1..]);
    }
  }

  /** Prepending the same index keeps the order. */
  lemma PreLessCons(i: nat, p: Path, q: Path)
    ensures PreLess([i] + p, [i] + q) == PreLess(p, q)
  {
    assert ([i] + p)[1..] == p && ([i] + q)[1..] == q;
  }

  lemma VisibleIsValid(t: Tree, p: Path, ign: bool)
    requires Visible(t, p, ign)
    ensures ValidPath(t, p)
    decreases p
  {
    if p != [] { VisibleIsValid(t.subs[p[0]], p[1..], ign); }
  }

  lemma DescendsIsValid(t: Tree, p: Path, m: Mode)
    requires Descends(t, p, m)
    ensures ValidPath(t, p)
    decreases p
  {
    if p != [] { DescendsIsValid(t.subs[p[0]], p[1..], m); }
  }

  lemma ValidCons(t: Tree, i: nat, p: Path)
    requires i < |t.subs|
    ensures ValidPath(t, [i] + p) == ValidPath(t.subs[i], p)
    ensures ValidPath(t, [i] + p) ==> At(t, [i] + p) == At(t.subs[i], p)
  {
    assert ([i] + p)[0] == i && ([i] + p)[1..] == p;
  }

  lemma VisibleCons(t: Tree, i: nat, p: Path, ign: bool)
    requires i < |t.subs|
    ensures Visible(t, [i] + p, ign) == ((!ign || t.obtained) && Visible(t.subs[i], p, ign))
  {
    assert ([i] + p)[0] == i && ([i] + p)[1..] == p;
  }

  // ------------------------------------------------------ pre-order walks

  /** Prefix every path with child index `i`. */
  function Under(i: nat, ps: seq<Path>): (r: seq<Path>)
    ensures |r| == |ps| && forall j :: 0 <= j < |ps| ==> r[j] == [i] + ps[j]
  {
    seq(|ps|, j requires 0 <= j < |ps| => [i] + ps[j])
  }

  /** The positions, in pre-order, that a traversal in mode `m` reports. */
  function Walk(t: Tree, m: Mode): (r: seq<Path>)
    ensures forall q :: q in r ==> ValidPath(t, q)
    decreases t, 1, 0
  {
    (if Keeps(m, t) then [[]] else []) + (if Enters(m, t) then WalkFrom(t, m, 0) else [])
  }

  function WalkFrom(t: Tree, m: Mode, i: nat): (r: seq<Path>)
    requires i <= |t.subs|
    ensures forall q :: q in r ==> q != [] && ValidPath(t, q)
    decreases t, 0, |t.subs| - i
  {
    if i == |t.subs| then []
    else
      var w := Walk(t.subs[i], m);
      UnderValid(t, i, w);
      Under(i, w) + WalkFrom(t, m, i + 1)
  }

  lemma UnderValid(t: Tree, i: nat, ps: seq<Path>)
    requires i < |t.subs| && forall q :: q in ps ==> ValidPath(t.subs[i], q)
    ensures forall q :: q in Under(i, ps) ==> q != [] && ValidPath(t, q)
  {
    forall q | q in Under(i, ps) ensures q != [] && ValidPath(t, q) {
      var j :| 0 <= j < |ps| && Under(i, ps)[j] == q;
      ValidCons(t, i, ps[j]);
    }
  }

  /** A walk reports exactly the positions whose node it keeps and whose
      ancestors it entered. */
  lemma {:induction false} WalkMembers(t: Tree, m: Mode, q: Path)
    ensures q in Walk(t, m) <==> Descends(t, q, m) && ValidPath(t, q) && Keeps(m, At(t, q))
    decreases t, 1, 0
  {
    if q == [] {
      if Enters(m, t) { WalkFromMembers(t, m, 0, q); }
    } else {
      if Enters(m, t) {
        WalkFromMembers(t, m, 0, q);
      } else {
        assert !Descends(t, q, m);
      }
    }
  }

  lemma {:induction false} WalkFromMembers(t: Tree, m: Mode, i: nat, q: Path)
    requires i <= |t.subs|
    requires Enters(m, t)
    ensures q in WalkFrom(t, m, i) <==>
      q != [] && i <= q[0] < |t.subs| && Descends(t, q, m) && ValidPath(t, q) && Keeps(m, At(t, q))
    decreases t, 0, |t.subs| - i
  {
    if i < |t.subs| {
      var w := Walk(t.subs[i], m);
      WalkFromMembers(t, m, i + 1, q);
      if q != [] && q[0] == i {
        WalkMembers(t.subs[i], m, q[1..]);
        assert q == [i] + q[1..];
        if q[1..] in w {
          var j :| 0 <= j < |w| && w[j] == q[1..];
          assert Under(i, w)[j] == q;
        }
        if q in Under(i, w) {
          var j :| 0 <= j < |w| && Under(i, w)[j] == q;
          assert w[j] == q[1..];
        }
        ValidCons(t, i, q[1..]);
      }
    }
  }

  predicate Sorted(ps: seq<Path>)
  {
    forall a, b :: 0 <= a < b < |ps| ==> PreLess(ps[a], ps[b])
  }

  /** A walk lists its positions in strict pre-order (so without repeats). */
  lemma {:induction false} WalkSorted(t: Tree, m: Mode)
    ensures Sorted(Walk(t, m))
    decreases t, 1, 0
  {
    if Enters(m, t) {
      WalkFromSorted(t, m, 0);
      var rest := WalkFrom(t, m, 0);
      if Keeps(m, t) {
        SortedAfterRoot(rest);
      } else {
        assert Walk(t, m) == rest;
      }
    }
  }

  /** The root's position goes before any list of proper descendants. */
  lemma SortedAfterRoot(rest: seq<Path>)
    requires Sorted(rest) && forall q :: q in rest ==> q != []
    ensures Sorted([[]] + rest)
  {
    var s := [[]] + rest;
    forall a, b | 0 <= a < b < |s| ensures PreLess(s[a], s[b]) {
      assert s[b] == rest[b - 1] && s[b] in rest;
      if a > 0 { assert s[a] == rest[a - 1]; }
    }
  }

  lemma {:induction false} WalkFromSorted(t: Tree, m: Mode, i: nat)
    requires i <= |t.subs|
    requires Enters(m, t)
    ensures Sorted(WalkFrom(t, m, i))
    decreases t, 0, |t.subs| - i
  {
    if i < |t.subs| {
      var w := Walk(t.subs[i], m);
      var u := Under(i, w);
      var rest := WalkFrom(t, m, i + 1);
      WalkSorted(t.subs[i], m);
      WalkFromSorted(t, m, i + 1);
      forall a, b | 0 <= a < b < |u| ensures PreLess(u[a], u[b]) {
        PreLessCons(i, w[a], w[b]);
      }
      forall a, b | 0 <= a < |u| && 0 <= b < |rest| ensures PreLess(u[a], rest[b]) {
        WalkFromMembers(t, m, i + 1, rest[b]);
        assert rest[b] in rest;
      }
      var s := u + rest;
      forall a, b | 0 <= a < b < |s| ensures PreLess(s[a], s[b]) {
        if b < |u| {
        } else if a >= |u| {
          assert s[a] == rest[a - |u|] && s[b] == rest[b - |u|];
        } else {
          assert s[a] == u[a] && s[b] == rest[b - |u|];
        }
      }
    }
  }

  /** The nodes at a list of positions. */
  function NodesAt(t: Tree, ps: seq<Path>): (r: seq<Tree>)
    requires forall q :: q in ps ==> ValidPath(t, q)
    ensures |r| == |ps| && forall j :: 0 <= j < |ps| ==> r[j] == At(t, ps[j])
  {
    seq(|ps|, j requires 0 <= j < |ps| => At(t, ps[j]))
  }

  // ---------------------------------------------- skeletons and rewrites

  /** Same types, uniqueness flags and child structure; obtained flags free. */
  predicate SameSkeleton(a: Tree, b: Tree)
    decreases a
  {
    a.kind == b.kind && a.unique == b.unique && |a.subs| == |b.subs| &&
    forall i :: 0 <= i < |a.subs| ==> SameSkeleton(a.subs[i], b.subs[i])
  }

  lemma {:induction false} SkeletonPaths(a: Tree, b: Tree, q: Path)
    requires SameSkeleton(a, b)
    ensures ValidPath(a, q) <==> ValidPath(b, q)
    ensures ValidPath(a, q) ==> SameSkeleton(At(a, q), At(b, q))
    decreases q
  {
    if q != [] && q[0] < |a.subs| {
      SkeletonPaths(a.subs[q[0]], b.subs[q[0]], q[1..]);
    }
  }

  lemma {:induction false} SkeletonReflexive(a: Tree)
    ensures SameSkeleton(a, a)
    decreases a
  {
    forall i | 0 <= i < |a.subs| { SkeletonReflexive(a.subs[i]); }
  }

  lemma {:induction false} SkeletonTransitive(a: Tree, b: Tree, c: Tree)
    requires SameSkeleton(a, b) && SameSkeleton(b, c)
    ensures SameSkeleton(a, c)
    decreases a
  {
    forall i | 0 <= i < |a.subs| { SkeletonTransitive(a.subs[i], b.subs[i], c.subs[i]); }
  }

  /** The tree with the subtree at `p` replaced by `n`. */
  function ReplaceAt(t: Tree, p: Path, n: Tree): Tree
    requires ValidPath(t, p)
    decreases p
  {
    if p == [] then n
    else t.(subs := t.subs[p[0] := ReplaceAt(t.subs[p[0]], p[1..], n)])
  }

  lemma {:induction false} ReplaceAtHere(t: Tree, p: Path, n: Tree)
    requires ValidPath(t, p)
    ensures ValidPath(ReplaceAt(t, p, n), p) && At(ReplaceAt(t, p, n), p) == n
    decreases p
  {
    if p != [] { ReplaceAtHere(t.subs[p[0]], p[1..], n); }
  }

  lemma {:induction false} ReplaceAtSelf(t: Tree, p: Path)
    requires ValidPath(t, p)
    ensures ReplaceAt(t, p, At(t, p)) == t
    decreases p
  {
    if p != [] {
      ReplaceAtSelf(t.subs[p[0]], p[1..]);
      assert t.subs[p[0] := t.subs[p[0]]] == t.subs;
    }
  }

  lemma {:induction false} ReplaceAtTwice(t: Tree, p: Path, n1: Tree, n2: Tree)
    requires ValidPath(t, p)
    ensures ValidPath(ReplaceAt(t, p, n1), p)
    ensures ReplaceAt(ReplaceAt(t, p, n1), p, n2) == ReplaceAt(t, p, n2)
    decreases p
  {
    ReplaceAtHere(t, p, n1);
    if p != [] { ReplaceAtTwice(t.subs[p[0]], p[1..], n1, n2); }
  }

  lemma {:induction false} ReplaceAtSkeleton(t: Tree, p: Path, n: Tree)
    requires ValidPath(t, p) && SameSkeleton(At(t, p), n)
    ensures SameSkeleton(t, ReplaceAt(t, p, n))
    decreases p
  {
    if p != [] {
      ReplaceAtSkeleton(t.subs[p[0]], p[1..], n);
      forall i | 0 <= i < |t.subs| && i != p[0] { SkeletonReflexive(t.subs[i]); }
    }
  }

  /** Nodes that are neither an ancestor nor a descendant of `p` (nor `p`
      itself) are untouched by a replacement at `p`. */
  lemma {:induction false} ReplaceAtElsewhere(t: Tree, p: Path, n: Tree, q: Path)
    requires ValidPath(t, p) && ValidPath(t, q)
    requires !IsPrefix(p, q) && !IsPrefix(q, p)
    ensures ValidPath(ReplaceAt(t, p, n), q) && At(ReplaceAt(t, p, n), q) == At(t, q)
    decreases p
  {
    assert p != [] && q != [];
    if p[0] == q[0] {
      PrefixCons(p, q);
      PrefixCons(q, p);
      ReplaceAtElsewhere(t.subs[p[0]], p[1..], n, q[1..]);
    }
  }

  lemma PrefixCons(p: Path, q: Path)
    requires p != [] && q != [] && p[0] == q[0]
    ensures IsPrefix(p, q) <==> IsPrefix(p[1..], q[1..])
  {
    if |p| <= |q| {
      assert q[..|p|] == [q[0]] + q[1..][..|p| - 1];
      assert p == [p[0]] + p[1..];
    }
  }

  /** Ancestors of `p` keep their own type and flags under a replacement. */
  lemma {:induction false} ReplaceAtAncestor(t: Tree, p: Path, n: Tree, q: Path)
    requires ValidPath(t, p) && IsPrefix(q, p) && q != p
    ensures ValidPath(t, q) && ValidPath(ReplaceAt(t, p, n), q)
    ensures var a, b := At(t, q), At(ReplaceAt(t, p, n), q);
      a.kind == b.kind && a.obtained == b.obtained && a.unique == b.unique && |a.subs| == |b.subs|
    decreases p
  {
    if q != [] {
      assert q[0] == p[0] && IsPrefix(q[1..], p[1..]);
      assert q == [q[0]] + q[1..] && p == [p[0]] + p[1..];
      ReplaceAtAncestor(t.subs[p[0]], p[1..], n, q[1..]);
    }
  }

  /** Descendants of `p` are read from the replacement. */
  lemma {:induction false} ReplaceAtBelow(t: Tree, p: Path, n: Tree, s: Path)
    requires ValidPath(t, p)
    ensures ValidPath(ReplaceAt(t, p, n), p + s) <==> ValidPath(n, s)
    ensures ValidPath(n, s) ==> At(ReplaceAt(t, p, n), p + s) == At(n, s)
    decreases p
  {
    if p != [] {
      assert (p + s)[0] == p[0] && (p + s)[1..] == p[1..] + s;
      ReplaceAtBelow(t.subs[p[0]], p[1..], n, s);
    } else {
      assert p + s == s;
    }
  }

  /** Reading a path in two steps. */
  lemma {:induction false} AtAppend(t: Tree, p: Path, s: Path)
    requires ValidPath(t, p)
    ensures ValidPath(t, p + s) <==> ValidPath(At(t, p), s)
    ensures ValidPath(t, p + s) ==> At(t, p + s) == At(At(t, p), s)
    decreases p
  {
    if p != [] {
      assert (p + s)[0] == p[0] && (p + s)[1..] == p[1..] + s;
      AtAppend(t.subs[p[0]], p[1..], s);
    } else {
      assert p + s == s;
    }
  }

  /** Without `ign` a search reaches every node. */
  lemma {:induction false} VisibleAll(t: Tree, p: Path)
    ensures Visible(t, p, false) <==> ValidPath(t, p)
    decreases p
  {
    if p != [] && p[0] < |t.subs| { VisibleAll(t.subs[p[0]], p[1..]); }
  }

  // ------------------------------------------------- the None type's place

  /** Only the root may have type `None` (the template trees are built so). */
  ghost predicate NoneOnlyAtRoot(a: Tree)
  {
    forall q :: ValidPath(a, q) && q != [] ==> At(a, q).kind != NoneType
  }

  lemma NoneOnlyAtRootSub(a: Tree, i: nat)
    requires NoneOnlyAtRoot(a) && i < |a.subs|
    ensures NoneOnlyAtRoot(a.subs[i]) && a.subs[i].kind != NoneType
  {
    ValidCons(a, i, []);
    assert [i] + [] == [i];
    forall q | ValidPath(a.subs[i], q) && q != [] ensures At(a.subs[i], q).kind != NoneType {
      ValidCons(a, i, q);
    }
  }

  /** Children of other types that meet the condition make a tree that
      meets it. */
  lemma NoneOnlyAtRootJoin(t: Tree)
    requires forall i :: 0 <= i < |t.subs| ==> t.subs[i].kind != NoneType && NoneOnlyAtRoot(t.subs[i])
    ensures NoneOnlyAtRoot(t)
  {
    forall q | ValidPath(t, q) && q != [] ensures At(t, q).kind != NoneType {
      assert q == [q[0]] + q[1..];
      ValidCons(t, q[0], q[1..]);
    }
  }

  /** The condition is about types and shape only. */
  lemma NoneOnlyAtRootSkeleton(a: Tree, b: Tree)
    requires NoneOnlyAtRoot(a) && SameSkeleton(a, b)
    ensures NoneOnlyAtRoot(b)
  {
    forall q | ValidPath(b, q) && q != [] ensures At(b, q).kind != NoneType {
      SkeletonPaths(a, b, q);
    }
  }
}
