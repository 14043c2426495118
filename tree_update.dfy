/**
 * The mutators of the tech-tree library: `setNodeObtained` (both overloads),
 * `setBuildingNodeObtained`, `setPrereqsObtained`, `setNonUniqueNode` and
 * `removeNode` (both overloads).
 *
 * The source changes a tree passed by reference; here a mutator takes the old
 * tree and returns the new one with the success flag. Where the source loops
 * over the children, the model is a method with that loop, proved equal to a
 * specification function whose properties are proved as lemmas.
 */
module TreeUpdate {
  import opened Wrappers
  import opened UnitTypes
  import opened TreeBasics
  import opened TreeSearch

  // ---------------------------------------------------- flipping one flag

  /** `r` is `t` with only the `obtained` flag at `p` set to `v`. */
  ghost predicate FlippedAt(t: Tree, r: Tree, p: Path, v: bool)
  {
    SameSkeleton(t, r) && ValidPath(t, p) && ValidPath(r, p) && At(r, p).obtained == v &&
    forall q :: ValidPath(t, q) && q != p ==> ValidPath(r, q) && At(r, q).obtained == At(t, q).obtained
  }

  lemma FlagSkeleton(n: Tree, v: bool)
    ensures SameSkeleton(n, n.(obtained := v))
  {
    forall i | 0 <= i < |n.subs| { SkeletonReflexive(n.subs[i]); }
  }

  /** The write `node->_obtained = v` through a pointer to the node at `p`. */
  function SetFlag(t: Tree, p: Path, v: bool): (r: Tree)
    requires ValidPath(t, p)
    ensures FlippedAt(t, r, p, v)
  {
    SetFlagFacts(t, p, v);
    ReplaceAt(t, p, At(t, p).(obtained := v))
  }

  lemma SetFlagFacts(t: Tree, p: Path, v: bool)
    requires ValidPath(t, p)
    ensures FlippedAt(t, ReplaceAt(t, p, At(t, p).(obtained := v)), p, v)
  {
    var a := At(t, p);
    var n := a.(obtained := v);
    var r := ReplaceAt(t, p, n);
    FlagSkeleton(a, v);
    ReplaceAtSkeleton(t, p, n);
    ReplaceAtHere(t, p, n);
    forall q | ValidPath(t, q) && q != p
      ensures ValidPath(r, q) && At(r, q).obtained == At(t, q).obtained
    {
      if IsPrefix(q, p) {
        ReplaceAtAncestor(t, p, n, q);
      } else if IsPrefix(p, q) {
        var s := q[|p|..];
        assert q == p + s;
        AtAppend(t, p, s);
        ReplaceAtBelow(t, p, n, s);
        assert s != [];
        assert At(n, s) == At(a.subs[s[0]], s[1..]);
      } else {
        ReplaceAtElsewhere(t, p, n, q);
      }
    }
  }

  /** `setNodeObtained(type, tree, obtained)`: flips the first node of the
      type, searching the whole tree; fails, changing nothing, when the tree
      holds no node of the type. */
  function SetNodeObtained(k: UnitType, t: Tree, v: bool): (r: (Tree, bool))
    ensures r.1 <==> exists q :: ValidPath(t, q) && At(t, q).kind == k
    ensures r.1 ==> FindNode(k, t, false).Some? && FlippedAt(t, r.0, FindNode(k, t, false).value, v)
    ensures r.1 ==> At(t, FindNode(k, t, false).value).kind == k
    ensures !r.1 ==> r.0 == t
  {
    FindNodeEverywhere(k, t);
    match FindNode(k, t, false)
    case Some(p) => (SetFlag(t, p, v), true)
    case None => (t, false)
  }

  lemma FindNodeEverywhere(k: UnitType, t: Tree)
    ensures FindNode(k, t, false).Some? <==> exists q :: ValidPath(t, q) && At(t, q).kind == k
  {
    var f := FindNode(k, t, false);
    if f.Some? {
      assert ValidPath(t, f.value) && At(t, f.value).kind == k;
    } else {
      forall q | ValidPath(t, q) ensures At(t, q).kind != k { VisibleAll(t, q); }
    }
  }

  /** `setNodeObtained(node, tree, obtained)`: flips the node itself when it
      belongs to the tree. */
  function SetNodeObtainedAt(p: Path, t: Tree, v: bool): (r: (Tree, bool))
    ensures r.1 <==> ValidPath(t, p)
    ensures r.1 ==> FlippedAt(t, r.0, p, v)
    ensures !r.1 ==> r.0 == t
  {
    VisibleAll(t, p);
    match FindNodeAt(p, t, false)
    case Some(q) => (SetFlag(t, q, v), true)
    case None => (t, false)
  }

  /** A search that ignores the flags sees only the skeleton. */
  lemma FindNodeSkeleton(k: UnitType, a: Tree, b: Tree)
    requires SameSkeleton(a, b)
    ensures FindNode(k, a, false) == FindNode(k, b, false)
  {
    var fa, fb := FindNode(k, a, false), FindNode(k, b, false);
    if fa.Some? {
      SkeletonPaths(a, b, fa.value);
      VisibleAll(a, fa.value);
      VisibleAll(b, fa.value);
    }
    if fb.Some? {
      SkeletonPaths(a, b, fb.value);
      VisibleAll(a, fb.value);
      VisibleAll(b, fb.value);
    }
    if fa.Some? && fb.Some? && fa.value != fb.value {
      PreLessTotal(fa.value, fb.value);
    }
  }

  // ------------------------------------------------------------- removal

  /** The tree with the node at `r` erased from its parent's children. */
  function RemoveAt(t: Tree, r: Path): Tree
    requires r != [] && ValidPath(t, r)
    decreases r
  {
    if |r| == 1 then t.(subs := t.subs[..r[0]] + t.subs[r[0] + 1..])
    else t.(subs := t.subs[r[0] := RemoveAt(t.subs[r[0]], r[1..])])
  }

  lemma BelowHitFacts(g: Target, t: Tree, ign: bool)
    ensures var f := FindFirst(Below(g), t, ign);
      f.Some? ==> f.value != [] && ValidPath(t, f.value)
  {
    FindFirstSpec(Below(g), t, ign);
    var f := FindFirst(Below(g), t, ign);
    if f.Some? {
      VisibleIsValid(t, f.value, ign);
      HitBelow(g, t, f.value);
    }
  }

  /** What `removeNode` does: erase the first node below the root, in
      pre-order, that the target matches. */
  function Removed(g: Target, t: Tree): (Tree, bool)
  {
    BelowHitFacts(g, t, false);
    match FindFirst(Below(g), t, false)
    case Some(q) => (RemoveAt(t, q), true)
    case None => (t, false)
  }

  /** The loop both `removeNode` overloads share: each child is checked
      before its subtree is searched, and the first match is erased. */
  method RemoveFirstMatch(g: Target, t: Tree) returns (r: Tree, found: bool)
    ensures (r, found) == Removed(g, t)
    decreases t
  {
    var i := 0;
    while i < |t.subs|
      invariant 0 <= i <= |t.subs|
      invariant HasSubs(t) ==> FindAmong(Below(g), t, false, i) == FindFirst(Below(g), t, false)
    {
      var c := t.subs[i];
      assert Sub(Below(g), i) == Sub(g, i);
      if Matches(Sub(g, i), c) {
        assert FindFirst(Sub(g, i), c, false) == Some([]);
        assert [i] + [] == [i];
        r := t.(subs := t.subs[..i] + t.subs[i + 1..]);
        return r, true;
      }
      SearchFromNonMatching(Sub(g, i), c, false);
      BelowHitFacts(Sub(g, i), c, false);
      var c2, res := RemoveFirstMatch(Sub(g, i), c);
      if res {
        var q := FindFirst(Below(Sub(g, i)), c, false).value;
        assert FindAmong(Below(g), t, false, i) == Some([i] + q);
        assert ([i] + q)[0] == i && ([i] + q)[1..] == q;
        r := t.(subs := t.subs[i := c2]);
        return r, true;
      }
      i := i + 1;
    }
    return t, false;
  }

  /** The first node below the root, in pre-order, of type `k` with flag `v`. */
  function FirstWithFlag(k: UnitType, v: bool, t: Tree): (r: Option<Path>)
    ensures r.Some? ==> r.value != [] && ValidPath(t, r.value) && At(t, r.value).kind == k && At(t, r.value).obtained == v
    ensures r.Some? ==> forall q :: ValidPath(t, q) && q != [] && PreLess(q, r.value) ==>
      !(At(t, q).kind == k && At(t, q).obtained == v)
    ensures r.None? <==> forall q :: ValidPath(t, q) && q != [] ==> !(At(t, q).kind == k && At(t, q).obtained == v)
  {
    FirstWithFlagFacts(k, v, t);
    FindFirst(Below(ByTypeFlag(k, v)), t, false)
  }

  lemma FirstWithFlagFacts(k: UnitType, v: bool, t: Tree)
    ensures var r := FindFirst(Below(ByTypeFlag(k, v)), t, false);
      (r.Some? ==> r.value != [] && ValidPath(t, r.value) && At(t, r.value).kind == k && At(t, r.value).obtained == v) &&
      (r.Some? ==> forall q :: ValidPath(t, q) && q != [] && PreLess(q, r.value) ==>
        !(At(t, q).kind == k && At(t, q).obtained == v)) &&
      (r.None? <==> forall q :: ValidPath(t, q) && q != [] ==> !(At(t, q).kind == k && At(t, q).obtained == v))
  {
    var g := Below(ByTypeFlag(k, v));
    FindFirstSpec(g, t, false);
    forall q ensures Visible(t, q, false) <==> ValidPath(t, q) { VisibleAll(t, q); }
    forall q | ValidPath(t, q)
      ensures Hit(g, t, q) <==> q != [] && At(t, q).kind == k && At(t, q).obtained == v
    {
      HitBelow(ByTypeFlag(k, v), t, q);
      HitByTypeFlag(k, v, t, q);
    }
  }

  /** `removeNode(type, tree, obtained)`. */
  method RemoveNode(k: UnitType, t: Tree, v: bool) returns (r: Tree, found: bool)
    ensures found <==> FirstWithFlag(k, v, t).Some?
    ensures found ==> r == RemoveAt(t, FirstWithFlag(k, v, t).value)
    ensures !found ==> r == t
  {
    r, found := RemoveFirstMatch(ByTypeFlag(k, v), t);
  }

  /** `removeNode(node, tree)`: erases the node itself; the root is never
      erased, since only children are compared with the node. */
  method RemoveNodeAt(p: Path, t: Tree) returns (r: Tree, found: bool)
    ensures found <==> p != [] && ValidPath(t, p)
    ensures found ==> r == RemoveAt(t, p)
    ensures !found ==> r == t
  {
    RemoveByPosition(p, t);
    r, found := RemoveFirstMatch(ByPosition(p), t);
  }

  lemma RemoveByPosition(p: Path, t: Tree)
    ensures FindFirst(Below(ByPosition(p)), t, false) == (if p != [] && ValidPath(t, p) then Some(p) else None)
  {
    var g := Below(ByPosition(p));
    FindFirstSpec(g, t, false);
    forall q | Visible(t, q, false) ensures ValidPath(t, q) && (Hit(g, t, q) <==> q != [] && q == p) {
      VisibleIsValid(t, q, false);
      HitBelow(ByPosition(p), t, q);
      HitByPosition(p, t, q);
    }
    if p != [] && ValidPath(t, p) {
      VisibleAll(t, p);
      HitBelow(ByPosition(p), t, p);
      HitByPosition(p, t, p);
      forall q | Visible(t, q, false) && PreLess(q, p) ensures !Hit(g, t, q) {
        PreLessIrreflexive(p);
      }
      FirstHitUnique(g, t, false, p);
    }
  }

  // ------------------------------------- what an erase does to a pointer

  /** Erasing the node at `r` moves or destroys the node at `p` exactly when
      `r` is `p`, an ancestor of `p`, or an earlier sibling of `p` or of one
      of its ancestors: the erase shifts the vector holding that node. */
  predicate Shifts(r: Path, p: Path)
  {
    r != [] && |r| <= |p| && r[..|r| - 1] == p[..|r| - 1] && r[|r| - 1] <= p[|r| - 1]
  }

  lemma ShiftsCons(r: Path, p: Path)
    requires |r| > 1 && p != [] && r[0] == p[0]
    ensures Shifts(r, p) <==> Shifts(r[1..], p[1..])
  {
    if |r| <= |p| {
      assert r[..|r| - 1] == [r[0]] + r[1..][..|r| - 2];
      assert p[..|r| - 1] == [p[0]] + p[1..][..|r| - 2];
      assert r[|r| - 1] == r[1..][|r| - 2] && p[|r| - 1] == p[1..][|r| - 2];
    }
  }

  /** An erase that does not shift `p` leaves a node at `p` with the same
      type and flags, and leaves it whole unless the erase is inside it. */
  lemma {:induction false} RemoveAtKeeps(t: Tree, r: Path, p: Path)
    requires r != [] && ValidPath(t, r) && ValidPath(t, p) && !Shifts(r, p)
    ensures ValidPath(RemoveAt(t, r), p)
    ensures var a, b := At(t, p), At(RemoveAt(t, r), p);
      a.kind == b.kind && a.obtained == b.obtained && a.unique == b.unique
    ensures !IsPrefix(p, r) ==> At(RemoveAt(t, r), p) == At(t, p)
    decreases p
  {
    if p != [] {
      var t2 := RemoveAt(t, r);
      if |r| == 1 {
        assert r[..0] == p[..0];
        assert t2.subs[p[0]] == t.subs[p[0]];
      } else if r[0] != p[0] {
        assert t2.subs[p[0]] == t.subs[p[0]];
      } else {
        ShiftsCons(r, p);
        PrefixCons(p, r);
        RemoveAtKeeps(t.subs[p[0]], r[1..], p[1..]);
      }
    }
  }

  /** A shifting erase position other than `p` is reached before `p` by any
      search that reaches `p`. */
  lemma {:induction false} ShiftsFacts(t: Tree, r: Path, p: Path, ign: bool)
    requires Shifts(r, p) && r != p && Visible(t, p, ign) && ValidPath(t, r)
    ensures PreLess(r, p) && Visible(t, r, ign)
    decreases r
  {
    assert r[..|r| - 1][..0] == p[..|r| - 1][..0];
    if |r| == 1 {
      if r[0] == p[0] {
        assert p != [p[0]];
        assert p[1..] != [];
      }
    } else {
      assert r[0] == r[..|r| - 1][0] == p[..|r| - 1][0] == p[0];
      ShiftsCons(r, p);
      assert r[1..] != p[1..] by {
        assert r == [r[0]] + r[1..] && p == [p[0]] + p[1..];
      }
      ShiftsFacts(t.subs[r[0]], r[1..], p[1..], ign);
    }
  }

  // ------------------------------------------- setBuildingNodeObtained

  /** The loop over the found node's children: every child that is not a
      building takes the new flag. */
  function CascadeChildren(n: Tree, v: bool, isBuilding: UnitType -> bool): Tree
  {
    n.(subs := seq(|n.subs|, j requires 0 <= j < |n.subs| =>
      if isBuilding(n.subs[j].kind) then n.subs[j] else n.subs[j].(obtained := v)))
  }

  lemma CascadeSkeleton(n: Tree, v: bool, isBuilding: UnitType -> bool)
    ensures SameSkeleton(n, CascadeChildren(n, v, isBuilding))
  {
    var c := CascadeChildren(n, v, isBuilding);
    forall j | 0 <= j < |n.subs| ensures SameSkeleton(n.subs[j], c.subs[j]) {
      SkeletonReflexive(n.subs[j]);
      FlagSkeleton(n.subs[j], v);
    }
  }

  /** The duplicate `removeNode` erases never shifts the node found first, so
      the source's pointer to it stays good for the loop over its children. */
  lemma FoundNodeSurvives(k: UnitType, t: Tree, v: bool, p: Path)
    requires FindNode(k, t, v) == Some(p)
    ensures var t1 := SetFlag(t, p, v);
      var t2 := Removed(ByTypeFlag(k, !v), t1).0;
      ValidPath(t2, p) && At(t2, p).kind == k && At(t2, p).obtained == v && At(t2, p).unique == At(t, p).unique
  {
    var t1 := SetFlag(t, p, v);
    SkeletonPaths(t, t1, p);
    var f := FirstWithFlag(k, !v, t1);
    if f.Some? {
      var r := f.value;
      SkeletonPaths(t, t1, r);
      NotShifted(k, t, v, p, t1, r);
      RemoveAtKeeps(t1, r, p);
    }
  }

  lemma NotShifted(k: UnitType, t: Tree, v: bool, p: Path, t1: Tree, r: Path)
    requires FindNode(k, t, v) == Some(p) && t1 == SetFlag(t, p, v)
    requires r != [] && ValidPath(t1, r) && At(t1, r).kind == k && At(t1, r).obtained == !v
    ensures !Shifts(r, p)
  {
    SkeletonPaths(t, t1, r);
    if Shifts(r, p) {
      ShiftsFacts(t, r, p, v);
    }
  }

  /** What `setBuildingNodeObtained(type, tree, obtained)` does: find the
      first node of the type (with `obtained` also meaning "search only
      below obtained nodes"), flip it, erase one copy of a non-unique type
      still flagged the other way, and flip the node's non-building
      children too. */
  function BuildingObtained(k: UnitType, t: Tree, v: bool, isBuilding: UnitType -> bool): (Tree, bool)
  {
    match FindNode(k, t, v)
    case None => (t, false)
    case Some(p) =>
      var t1 := SetFlag(t, p, v);
      var t2 := if At(t, p).unique then t1 else Removed(ByTypeFlag(k, !v), t1).0;
      FoundNodeSurvives(k, t, v, p);
      (ReplaceAt(t2, p, CascadeChildren(At(t2, p), v, isBuilding)), true)
  }

  /** `setBuildingNodeObtained`, with the loop over the found node's
      children. */
  method SetBuildingNodeObtained(k: UnitType, t: Tree, v: bool, isBuilding: UnitType -> bool)
    returns (r: Tree, ok: bool)
    ensures (r, ok) == BuildingObtained(k, t, v, isBuilding)
  {
    var found := FindNode(k, t, v);
    if found.None? {
      return t, false;
    }
    var p := found.value;
    r := SetFlag(t, p, v);
    if !At(t, p).unique {
      var removed;
      r, removed := RemoveNode(k, r, !v);
    }
    FoundNodeSurvives(k, t, v, p);
    var n := At(r, p);
    var c := CascadeLoop(n, v, isBuilding);
    r := ReplaceAt(r, p, c);
    ok := true;
  }

  /** The loop of `setBuildingNodeObtained` over the found node's children:
      each non-building child takes the flag, building children are left
      alone. */
  method CascadeLoop(n: Tree, v: bool, isBuilding: UnitType -> bool) returns (c: Tree)
    ensures c == CascadeChildren(n, v, isBuilding)
  {
    var subs := n.subs;
    var j := 0;
    while j < |subs|
      invariant 0 <= j <= |subs| && |subs| == |n.subs|
      invariant forall i :: 0 <= i < j ==> subs[i] == CascadeChildren(n, v, isBuilding).subs[i]
      invariant forall i :: j <= i < |subs| ==> subs[i] == n.subs[i]
    {
      if !isBuilding(subs[j].kind) {
        subs := subs[j := subs[j].(obtained := v)];
      }
      j := j + 1;
    }
    assert subs == CascadeChildren(n, v, isBuilding).subs;
    c := n.(subs := subs);
  }

  /** Applying a building succeeds exactly when the search finds a node; the
      found node then carries the new flag, and so do its non-building
      children; a unique node changes no types or structure. */
  lemma BuildingObtainedSpec(k: UnitType, t: Tree, v: bool, isBuilding: UnitType -> bool)
    ensures var (r, ok) := BuildingObtained(k, t, v, isBuilding);
      (ok <==> FindNode(k, t, v).Some?) && (!ok ==> r == t)
    ensures var (r, ok) := BuildingObtained(k, t, v, isBuilding);
      ok ==> var p := FindNode(k, t, v).value;
        ValidPath(r, p) && At(r, p).kind == k && At(r, p).obtained == v &&
        forall j :: 0 <= j < |At(r, p).subs| && !isBuilding(At(r, p).subs[j].kind) ==> At(r, p).subs[j].obtained == v
    ensures var (r, ok) := BuildingObtained(k, t, v, isBuilding);
      ok && At(t, FindNode(k, t, v).value).unique ==> SameSkeleton(t, r)
    ensures var (r, ok) := BuildingObtained(k, t, v, isBuilding);
      ok ==> var p := FindNode(k, t, v).value;
        var q := FirstWithFlag(k, !v, SetFlag(t, p, v));
        At(t, p).unique || q.None? || !IsPrefix(p, q.value) ==>
          |At(r, p).subs| == |At(t, p).subs| &&
          forall j :: 0 <= j < |At(t, p).subs| && isBuilding(At(t, p).subs[j].kind) ==> At(r, p).subs[j] == At(t, p).subs[j]
  {
    var f := FindNode(k, t, v);
    if f.Some? {
      var p := f.value;
      var t1 := SetFlag(t, p, v);
      var t2 := if At(t, p).unique then t1 else Removed(ByTypeFlag(k, !v), t1).0;
      FoundNodeSurvives(k, t, v, p);
      SkeletonPaths(t, t1, p);
      var c := CascadeChildren(At(t2, p), v, isBuilding);
      ReplaceAtHere(t2, p, c);
      if At(t, p).unique {
        CascadeSkeleton(At(t2, p), v, isBuilding);
        ReplaceAtSkeleton(t2, p, c);
        SkeletonTransitive(t, t1, ReplaceAt(t2, p, c));
        BuildingObtainedUnique(k, t, v, isBuilding, p);
      } else {
        BuildingObtainedNonUnique(k, t, v, isBuilding, p);
      }
      ReplaceAtHere(t, p, CascadeChildren(At(t, p).(obtained := v), v, isBuilding));
    }
  }

  /** For a unique node that the search finds at `p`, applying the building
      only rewrites the subtree at `p`. */
  lemma BuildingObtainedUnique(k: UnitType, t: Tree, v: bool, isBuilding: UnitType -> bool, p: Path)
    requires FindNode(k, t, v) == Some(p) && At(t, p).unique
    ensures BuildingObtained(k, t, v, isBuilding) ==
      (ReplaceAt(t, p, CascadeChildren(At(t, p).(obtained := v), v, isBuilding)), true)
  {
    var n := At(t, p).(obtained := v);
    ReplaceAtHere(t, p, n);
    ReplaceAtTwice(t, p, n, CascadeChildren(n, v, isBuilding));
  }

  /** For a non-unique node that the search finds at `p`: the node is
      flipped, then the first other node of the type still flagged the
      other way, if any, is erased, then the node's non-building children
      are flipped. Unless the erased copy lay below `p`, the node's own
      subtree is then the one the unique case gives. */
  lemma BuildingObtainedNonUnique(k: UnitType, t: Tree, v: bool, isBuilding: UnitType -> bool, p: Path)
    requires FindNode(k, t, v) == Some(p) && !At(t, p).unique
    ensures var t1 := SetFlag(t, p, v);
      var n := At(t, p).(obtained := v);
      match FirstWithFlag(k, !v, t1)
      case None => BuildingObtained(k, t, v, isBuilding) == (ReplaceAt(t, p, CascadeChildren(n, v, isBuilding)), true)
      case Some(q) =>
        ValidPath(RemoveAt(t1, q), p) &&
        BuildingObtained(k, t, v, isBuilding) ==
          (ReplaceAt(RemoveAt(t1, q), p, CascadeChildren(At(RemoveAt(t1, q), p), v, isBuilding)), true) &&
        (!IsPrefix(p, q) ==> At(RemoveAt(t1, q), p) == n)
  {
    var t1 := SetFlag(t, p, v);
    var n := At(t, p).(obtained := v);
    FoundNodeSurvives(k, t, v, p);
    ReplaceAtHere(t, p, n);
    match FirstWithFlag(k, !v, t1)
    case None =>
      ReplaceAtTwice(t, p, n, CascadeChildren(n, v, isBuilding));
    case Some(q) =>
      SkeletonPaths(t, t1, p);
      NotShifted(k, t, v, p, t1, q);
      RemoveAtKeeps(t1, q, p);
  }

  /** Applying a building and then undoing it gives back the tree, when the
      type occurs once, at a node reachable through obtained nodes, that is
      unique, unobtained, and has only unobtained non-building children. */
  lemma ApplyUndoRestores(k: UnitType, t: Tree, p: Path, isBuilding: UnitType -> bool)
    requires Visible(t, p, true) && ValidPath(t, p) && At(t, p).kind == k
    requires forall q :: ValidPath(t, q) && At(t, q).kind == k ==> q == p
    requires At(t, p).unique && !At(t, p).obtained
    requires forall j :: 0 <= j < |At(t, p).subs| && !isBuilding(At(t, p).subs[j].kind) ==> !At(t, p).subs[j].obtained
    ensures BuildingObtained(k, t, true, isBuilding).1
    ensures BuildingObtained(k, BuildingObtained(k, t, true, isBuilding).0, false, isBuilding) == (t, true)
  {
    var a := At(t, p);
    var f := FindNode(k, t, true);
    if f.Some? { VisibleIsValid(t, f.value, true); }
    assert f == Some(p);
    BuildingObtainedUnique(k, t, true, isBuilding, p);
    var c1 := CascadeChildren(a.(obtained := true), true, isBuilding);
    var t1 := ReplaceAt(t, p, c1);
    FlagSkeleton(a, true);
    CascadeSkeleton(a.(obtained := true), true, isBuilding);
    SkeletonTransitive(a, a.(obtained := true), c1);
    ReplaceAtSkeleton(t, p, c1);
    ReplaceAtHere(t, p, c1);
    FindNodeSkeleton(k, t, t1);
    var g := FindNode(k, t, false);
    VisibleAll(t, p);
    if g.Some? { VisibleIsValid(t, g.value, false); }
    assert g == Some(p);
    BuildingObtainedUnique(k, t1, false, isBuilding, p);
    var c2 := CascadeChildren(c1.(obtained := false), false, isBuilding);
    assert c2.subs == a.subs;
    assert c2 == a;
    ReplaceAtTwice(t, p, c1, c2);
    ReplaceAtSelf(t, p);
  }

  // ------------------------------------------------ setPrereqsObtained

  /** The first node of each listed type. */
  function Firsts(kinds: seq<UnitType>, t: Tree): set<Path>
  {
    set kk | kk in kinds && FindNode(kk, t, false).Some? :: FindNode(kk, t, false).value
  }

  /** The loop of `setPrereqsObtained`: flip each listed type in turn; stop
      with false at the first type the tree does not hold. */
  function SetAll(kinds: seq<UnitType>, t: Tree, v: bool): (Tree, bool)
    decreases |kinds|
  {
    if kinds == [] then (t, true)
    else
      var (t1, ok) := SetNodeObtained(kinds[0], t, v);
      if !ok then (t, false) else SetAll(kinds[1..], t1, v)
  }

  /** `r` is `t` with the `obtained` flags at the positions in `S` set to
      `v` and every other flag kept. */
  ghost predicate FlippedAll(t: Tree, r: Tree, S: set<Path>, v: bool)
  {
    SameSkeleton(t, r) &&
    forall q :: ValidPath(t, q) ==> ValidPath(r, q) && At(r, q).obtained == (if q in S then v else At(t, q).obtained)
  }

  lemma FlipCompose(t: Tree, t1: Tree, r: Tree, p: Path, S: set<Path>, v: bool)
    requires FlippedAt(t, t1, p, v) && FlippedAll(t1, r, S, v)
    ensures FlippedAll(t, r, {p} + S, v)
  {
    SkeletonTransitive(t, t1, r);
    forall q | ValidPath(t, q)
      ensures ValidPath(r, q) && At(r, q).obtained == (if q in {p} + S then v else At(t, q).obtained)
    {
      SkeletonPaths(t, t1, q);
    }
  }

  lemma FirstsCons(kinds: seq<UnitType>, t: Tree, t1: Tree)
    requires kinds != [] && FindNode(kinds[0], t, false).Some?
    requires forall kk :: kk in kinds[1..] ==> FindNode(kk, t1, false) == FindNode(kk, t, false)
    ensures Firsts(kinds, t) == {FindNode(kinds[0], t, false).value} + Firsts(kinds[1..], t1)
  {
    assert kinds == [kinds[0]] + kinds[1..];
  }

  /** When every listed type occurs, the loop succeeds and flips exactly the
      first node of each listed type. */
  lemma {:induction false} SetAllSpec(kinds: seq<UnitType>, t: Tree, v: bool)
    requires forall kk :: kk in kinds ==> FindNode(kk, t, false).Some?
    ensures SetAll(kinds, t, v).1
    ensures FlippedAll(t, SetAll(kinds, t, v).0, Firsts(kinds, t), v)
    decreases |kinds|
  {
    if kinds == [] {
      SkeletonReflexive(t);
    } else {
      var p0 := FindNode(kinds[0], t, false).value;
      var t1 := SetFlag(t, p0, v);
      assert SetNodeObtained(kinds[0], t, v) == (t1, true);
      forall kk | kk in kinds[1..] ensures FindNode(kk, t1, false) == FindNode(kk, t, false) {
        FindNodeSkeleton(kk, t, t1);
      }
      SetAllSpec(kinds[1..], t1, v);
      FirstsCons(kinds, t, t1);
      FlipCompose(t, t1, SetAll(kinds[1..], t1, v).0, p0, Firsts(kinds[1..], t1), v);
    }
  }

  /** `setPrereqsObtained(type, tree, obtained)`. */
  method SetPrereqsObtained(k: UnitType, t: Tree, v: bool) returns (r: Tree, ok: bool)
    ensures (r, ok) == SetAll(FindPrereqNodes(k, t, []), t, v)
  {
    var prereqs := FindPrereqNodes(k, t, []);
    r := t;
    var i := 0;
    while i < |prereqs|
      invariant 0 <= i <= |prereqs|
      invariant SetAll(prereqs, t, v) == SetAll(prereqs[i..], r, v)
    {
      assert prereqs[i..][0] == prereqs[i] && prereqs[i..][1..] == prereqs[i + 1..];
      var step := SetNodeObtained(prereqs[i], r, v);
      if !step.1 {
        return r, false;
      }
      r := step.0;
      i := i + 1;
    }
    ok := true;
  }

  lemma {:induction false} AncestryKinds(t: Tree, q: Path, j: nat)
    requires ValidPath(t, q) && j < |q|
    ensures ValidPath(t, q[..j]) && Ancestry(t, q)[j] == At(t, q[..j]).kind
    decreases j
  {
    if j > 0 {
      AncestryKinds(t.subs[q[0]], q[1..], j - 1);
      assert q[..j] == [q[0]] + q[1..][..j - 1];
      ValidCons(t, q[0], q[1..][..j - 1]);
    }
  }

  /** Every prerequisite type is in the tree, so `setPrereqsObtained` never
      fails, and it flips the first node of each prerequisite type. */
  lemma PrereqsObtainedSpec(k: UnitType, t: Tree, v: bool)
    ensures SetAll(FindPrereqNodes(k, t, []), t, v).1
    ensures var kinds := FindPrereqNodes(k, t, []);
      FlippedAll(t, SetAll(kinds, t, v).0, Firsts(kinds, t), v)
  {
    var kinds := FindPrereqNodes(k, t, []);
    forall kk | kk in kinds ensures FindNode(kk, t, false).Some? {
      PrereqPresent(k, t, kk);
    }
    SetAllSpec(kinds, t, v);
  }

  /** Each prerequisite type is the type of an ancestor, so a node of it is
      there to be found. */
  lemma PrereqPresent(k: UnitType, t: Tree, kk: UnitType)
    requires kk in FindPrereqNodes(k, t, [])
    ensures FindNode(kk, t, false).Some?
  {
    var kinds := FindPrereqNodes(k, t, []);
    PrereqNodesSpec(k, t, []);
    var f := FindNodeBelowRoot(k, t, false);
    assert f.Some?;
    var q := f.value;
    assert [] + Ancestry(t, q) == Ancestry(t, q);
    var j :| 0 <= j < |kinds| && kinds[j] == kk;
    AncestryKinds(t, q, j);
    TypedNodeFound(kk, t, q[..j]);
  }

  /** A node of the type at any position means the search finds one. */
  lemma TypedNodeFound(k: UnitType, t: Tree, q: Path)
    requires ValidPath(t, q) && At(t, q).kind == k
    ensures FindNode(k, t, false).Some?
  {
    FindNodeEverywhere(k, t);
  }

  // -------------------------------------------------- setNonUniqueNode

  /** `setNonUniqueNode(node, tree, obtained)`: flip the node itself, then
      erase the first copy of its type still flagged the other way. */
  method SetNonUniqueNode(p: Path, t: Tree, v: bool) returns (r: Tree, ok: bool)
    ensures !ValidPath(t, p) ==> r == t && !ok
    ensures ValidPath(t, p) ==> var t1 := SetFlag(t, p, v);
      (ok <==> FirstWithFlag(At(t, p).kind, !v, t1).Some?) &&
      (ok ==> r == RemoveAt(t1, FirstWithFlag(At(t, p).kind, !v, t1).value)) &&
      (!ok ==> r == t1)
  {
    var (t1, flipped) := SetNodeObtainedAt(p, t, v);
    if !flipped {
      return t, false;
    }
    SkeletonPaths(t, t1, p);
    r, ok := RemoveNode(At(t1, p).kind, t1, !v);
  }

  // ------------------------------------- the None type stays at the root

  /** Erasing a node below the root keeps every other node's type, so a
      tree whose only `None` node is its root keeps that property. */
  lemma {:induction false} RemoveAtNoneOnlyAtRoot(t: Tree, r: Path)
    requires NoneOnlyAtRoot(t) && r != [] && ValidPath(t, r)
    ensures NoneOnlyAtRoot(RemoveAt(t, r))
    decreases r
  {
    var t2 := RemoveAt(t, r);
    forall i | 0 <= i < |t.subs| { NoneOnlyAtRootSub(t, i); }
    if |r| == 1 {
      forall i | 0 <= i < |t2.subs| ensures t2.subs[i].kind != NoneType && NoneOnlyAtRoot(t2.subs[i]) {
        assert t2.subs[i] == if i < r[0] then t.subs[i] else t.subs[i + 1];
      }
    } else {
      RemoveAtNoneOnlyAtRoot(t.subs[r[0]], r[1..]);
    }
    NoneOnlyAtRootJoin(t2);
  }

  /** `setBuildingNodeObtained` leaves the `None` type at the root only. */
  lemma BuildingObtainedNoneOnlyAtRoot(k: UnitType, t: Tree, v: bool, isBuilding: UnitType -> bool)
    requires NoneOnlyAtRoot(t)
    ensures NoneOnlyAtRoot(BuildingObtained(k, t, v, isBuilding).0)
  {
    var f := FindNode(k, t, v);
    if f.Some? {
      var p := f.value;
      var t1 := SetFlag(t, p, v);
      NoneOnlyAtRootSkeleton(t, t1);
      var t2 := if At(t, p).unique then t1 else Removed(ByTypeFlag(k, !v), t1).0;
      BelowHitFacts(ByTypeFlag(k, !v), t1, false);
      if !At(t, p).unique && FindFirst(Below(ByTypeFlag(k, !v)), t1, false).Some? {
        RemoveAtNoneOnlyAtRoot(t1, FindFirst(Below(ByTypeFlag(k, !v)), t1, false).value);
      }
      FoundNodeSurvives(k, t, v, p);
      CascadeSkeleton(At(t2, p), v, isBuilding);
      ReplaceAtSkeleton(t2, p, CascadeChildren(At(t2, p), v, isBuilding));
      NoneOnlyAtRootSkeleton(t2, BuildingObtained(k, t, v, isBuilding).0);
    }
  }

  /** So does `setPrereqsObtained`, which only writes flags. */
  lemma {:induction false} SetAllNoneOnlyAtRoot(kinds: seq<UnitType>, t: Tree, v: bool)
    requires NoneOnlyAtRoot(t)
    ensures NoneOnlyAtRoot(SetAll(kinds, t, v).0)
    decreases |kinds|
  {
    if kinds != [] {
      var (t1, ok) := SetNodeObtained(kinds[0], t, v);
      if ok {
        NoneOnlyAtRootSkeleton(t, t1);
        SetAllNoneOnlyAtRoot(kinds[1..], t1, v);
      }
    }
  }
}
