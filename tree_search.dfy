/**
 * The searches of the tech-tree library: `findNode` (by type and by node),
 * `getImmediateParent`, `findPrereqNodes` and `getUnitPrereqs`.
 *
 * Both `findNode` overloads and the removal searches share one depth-first,
 * check-then-descend traversal; it is written once, over a `Target` that
 * says what a node must look like to match.
 */
module TreeSearch {
  import opened Wrappers
  import opened UnitTypes
  import opened TreeBasics

  /** What a search looks for. `ByPosition` is node identity: a pointer to a
      node is modelled by the node's path. `Below(g)` never matches the node
      the search starts at, only the nodes underneath it that `g` matches. */
  datatype Target =
    | ByType(k: UnitType)
    | ByTypeFlag(k: UnitType, flag: bool)
    | ByPosition(p: Path)
    | Below(inner: Target)
    | Nowhere

  /** Does the node the search is standing on match? */
  predicate Matches(g: Target, n: Tree)
  {
    match g
    case ByType(k) => n.kind == k
    case ByTypeFlag(k, f) => n.kind == k && n.obtained == f
    case ByPosition(p) => p == []
    case Below(_) => false
    case Nowhere => false
  }

  /** The target as seen from child `i` of the current node. */
  function Sub(g: Target, i: nat): Target
  {
    match g
    case ByPosition(p) => if p != [] && p[0] == i then ByPosition(p[1..]) else Nowhere
    case Below(inner) => Sub(inner, i)
    case _ => g
  }

  /** The node at `q` matches `g` (as seen from the root). */
  predicate Hit(g: Target, t: Tree, q: Path)
    decreases q
  {
    if q == [] then Matches(g, t)
    else q[0] < |t.subs| && Hit(Sub(g, q[0]), t.subs[q[0]], q[1..])
  }

  lemma HitCons(g: Target, t: Tree, i: nat, q: Path)
    requires i < |t.subs|
    ensures Hit(g, t, [i] + q) == Hit(Sub(g, i), t.subs[i], q)
  {
    assert ([i] + q)[0] == i && ([i] + q)[1..] == q;
  }

  lemma {:induction false} HitByType(k: UnitType, t: Tree, q: Path)
    ensures Hit(ByType(k), t, q) <==> ValidPath(t, q) && At(t, q).kind == k
    decreases q
  {
    if q != [] && q[0] < |t.subs| { HitByType(k, t.subs[q[0]], q[1..]); }
  }

  lemma {:induction false} HitByTypeFlag(k: UnitType, f: bool, t: Tree, q: Path)
    ensures Hit(ByTypeFlag(k, f), t, q) <==> ValidPath(t, q) && At(t, q).kind == k && At(t, q).obtained == f
    decreases q
  {
    if q != [] && q[0] < |t.subs| { HitByTypeFlag(k, f, t.subs[q[0]], q[1..]); }
  }

  lemma {:induction false} HitNowhere(t: Tree, q: Path)
    ensures !Hit(Nowhere, t, q)
    decreases q
  {
    if q != [] && q[0] < |t.subs| { HitNowhere(t.subs[q[0]], q[1..]); }
  }

  lemma {:induction false} HitByPosition(p: Path, t: Tree, q: Path)
    ensures Hit(ByPosition(p), t, q) <==> ValidPath(t, q) && q == p
    decreases q
  {
    if q != [] && q[0] < |t.subs| {
      if p != [] && p[0] == q[0] {
        HitByPosition(p[1..], t.subs[q[0]], q[1..]);
        assert p == [p[0]] + p[1..] && q == [q[0]] + q[1..];
      } else {
        HitNowhere(t.subs[q[0]], q[1..]);
      }
    }
  }

  lemma HitBelow(g: Target, t: Tree, q: Path)
    ensures Hit(Below(g), t, q) <==> q != [] && Hit(g, t, q)
  {
  }

  // ------------------------------------------------------ the one search

  /** `findNode`: check the node, give up on a leaf or (when `ign`) on an
      unobtained node, otherwise try the children in order. */
  function FindFirst(g: Target, t: Tree, ign: bool): Option<Path>
    decreases t, 1, 0
  {
    if Matches(g, t) then Some([])
    else if !HasSubs(t) || (ign && !t.obtained) then None
    else FindAmong(g, t, ign, 0)
  }

  /** The loop over the children, from child `i` on. */
  function FindAmong(g: Target, t: Tree, ign: bool, i: nat): Option<Path>
    requires i <= |t.subs|
    decreases t, 0, |t.subs| - i
  {
    if i == |t.subs| then None
    else match FindFirst(Sub(g, i), t.subs[i], ign)
      case Some(p) => Some([i] + p)
      case None => FindAmong(g, t, ign, i + 1)
  }

  /** `p` is the first position, in pre-order, that the search reaches and
      that matches. */
  ghost predicate IsFirstHit(g: Target, t: Tree, ign: bool, p: Path)
  {
    Visible(t, p, ign) && Hit(g, t, p) &&
    forall q :: Visible(t, q, ign) && PreLess(q, p) ==> !Hit(g, t, q)
  }

  ghost predicate NoHit(g: Target, t: Tree, ign: bool)
  {
    forall q :: Visible(t, q, ign) ==> !Hit(g, t, q)
  }

  /** The search returns the first reachable match in pre-order, or nothing
      when no reachable node matches. */
  lemma {:induction false} FindFirstSpec(g: Target, t: Tree, ign: bool)
    ensures FindFirst(g, t, ign).Some? ==> IsFirstHit(g, t, ign, FindFirst(g, t, ign).value)
    ensures FindFirst(g, t, ign).None? ==> NoHit(g, t, ign)
    decreases t, 1, 0
  {
    if Matches(g, t) {
    } else if !HasSubs(t) || (ign && !t.obtained) {
    } else {
      FindAmongSpec(g, t, ign, 0);
      var r := FindFirst(g, t, ign);
      if r.Some? {
        forall q | Visible(t, q, ign) && PreLess(q, r.value) ensures !Hit(g, t, q) {
        }
      }
    }
  }

  lemma {:induction false} FindAmongSpec(g: Target, t: Tree, ign: bool, i: nat)
    requires i <= |t.subs|
    requires !ign || t.obtained
    ensures var r := FindAmong(g, t, ign, i);
      (r.Some? ==> r.value != [] && r.value[0] >= i && Visible(t, r.value, ign) && Hit(g, t, r.value)) &&
      (r.Some? ==> forall q :: Visible(t, q, ign) && q != [] && q[0] >= i && PreLess(q, r.value) ==> !Hit(g, t, q)) &&
      (r.None? ==> forall q :: Visible(t, q, ign) && q != [] && q[0] >= i ==> !Hit(g, t, q))
    decreases t, 0, |t.subs| - i
  {
    if i < |t.subs| {
      var c := t.subs[i];
      FindFirstSpec(Sub(g, i), c, ign);
      var rc := FindFirst(Sub(g, i), c, ign);
      if rc.Some? {
        var p := rc.value;
        VisibleCons(t, i, p, ign);
        HitCons(g, t, i, p);
        forall q | Visible(t, q, ign) && q != [] && q[0] >= i && PreLess(q, [i] + p)
          ensures !Hit(g, t, q)
        {
          assert q == [i] + q[1..];
          VisibleCons(t, i, q[1..], ign);
          HitCons(g, t, i, q[1..]);
          PreLessCons(i, q[1..], p);
        }
      } else {
        FindAmongSpec(g, t, ign, i + 1);
        forall q | Visible(t, q, ign) && q != [] && q[0] == i ensures !Hit(g, t, q) {
          assert q == [i] + q[1..];
          VisibleCons(t, i, q[1..], ign);
          HitCons(g, t, i, q[1..]);
        }
      }
    }
  }

  /** There is only one first hit, so knowing one pins the search result. */
  lemma FirstHitUnique(g: Target, t: Tree, ign: bool, p: Path)
    requires IsFirstHit(g, t, ign, p)
    ensures FindFirst(g, t, ign) == Some(p)
  {
    FindFirstSpec(g, t, ign);
    var r := FindFirst(g, t, ign);
    if r.Some? && r.value != p {
      PreLessTotal(r.value, p);
    }
  }

  /** Two targets that agree on every child search the children alike. */
  lemma {:induction false} FindAmongSameSubs(g1: Target, g2: Target, t: Tree, ign: bool, i: nat)
    requires i <= |t.subs|
    requires forall j :: 0 <= j < |t.subs| ==> Sub(g1, j) == Sub(g2, j)
    ensures FindAmong(g1, t, ign, i) == FindAmong(g2, t, ign, i)
    decreases |t.subs| - i
  {
    if i < |t.subs| { FindAmongSameSubs(g1, g2, t, ign, i + 1); }
  }

  // ----------------------------------------------------------- findNode

  /** `findNode(type, tree, ignoreUnobtained)`. */
  function FindNode(k: UnitType, t: Tree, ign: bool): (r: Option<Path>)
    ensures r.Some? ==> Visible(t, r.value, ign) && ValidPath(t, r.value) && At(t, r.value).kind == k
    ensures r.Some? ==> forall q :: Visible(t, q, ign) && PreLess(q, r.value) ==> ValidPath(t, q) && At(t, q).kind != k
    ensures r.None? <==> forall q :: Visible(t, q, ign) ==> ValidPath(t, q) && At(t, q).kind != k
  {
    FindNodeFacts(k, t, ign);
    FindFirst(ByType(k), t, ign)
  }

  lemma FindNodeFacts(k: UnitType, t: Tree, ign: bool)
    ensures var r := FindFirst(ByType(k), t, ign);
      (r.Some? ==> Visible(t, r.value, ign) && ValidPath(t, r.value) && At(t, r.value).kind == k) &&
      (r.Some? ==> forall q :: Visible(t, q, ign) && PreLess(q, r.value) ==> ValidPath(t, q) && At(t, q).kind != k) &&
      (r.None? <==> forall q :: Visible(t, q, ign) ==> ValidPath(t, q) && At(t, q).kind != k)
  {
    FindFirstSpec(ByType(k), t, ign);
    forall q | Visible(t, q, ign) ensures ValidPath(t, q) && (Hit(ByType(k), t, q) <==> At(t, q).kind == k) {
      VisibleIsValid(t, q, ign);
      HitByType(k, t, q);
    }
  }

  /** `findNode(node, tree, ignoreUnobtained)`: the node itself when the
      search can reach it. */
  function FindNodeAt(p: Path, t: Tree, ign: bool): (r: Option<Path>)
    ensures r == (if Visible(t, p, ign) then Some(p) else None)
  {
    FindNodeAtFacts(p, t, ign);
    FindFirst(ByPosition(p), t, ign)
  }

  lemma FindNodeAtFacts(p: Path, t: Tree, ign: bool)
    ensures FindFirst(ByPosition(p), t, ign) == (if Visible(t, p, ign) then Some(p) else None)
  {
    FindFirstSpec(ByPosition(p), t, ign);
    forall q | Visible(t, q, ign) ensures Hit(ByPosition(p), t, q) <==> q == p {
      VisibleIsValid(t, q, ign);
      HitByPosition(p, t, q);
    }
    if Visible(t, p, ign) {
      VisibleIsValid(t, p, ign);
      HitByPosition(p, t, p);
      forall q | Visible(t, q, ign) && PreLess(q, p) ensures !Hit(ByPosition(p), t, q) {
        PreLessIrreflexive(p);
      }
      FirstHitUnique(ByPosition(p), t, ign, p);
    }
  }

  /** The first reachable node of type `k` strictly below the root. */
  function FindNodeBelowRoot(k: UnitType, t: Tree, ign: bool): (r: Option<Path>)
    ensures r.Some? ==> r.value != [] && Visible(t, r.value, ign) && ValidPath(t, r.value) && At(t, r.value).kind == k
    ensures r.Some? ==> forall q :: Visible(t, q, ign) && q != [] && PreLess(q, r.value) ==> ValidPath(t, q) && At(t, q).kind != k
    ensures r.None? <==> forall q :: Visible(t, q, ign) && q != [] ==> ValidPath(t, q) && At(t, q).kind != k
  {
    FindBelowFacts(k, t, ign);
    FindFirst(Below(ByType(k)), t, ign)
  }

  lemma FindBelowFacts(k: UnitType, t: Tree, ign: bool)
    ensures var r := FindFirst(Below(ByType(k)), t, ign);
      (r.Some? ==> r.value != [] && Visible(t, r.value, ign) && ValidPath(t, r.value) && At(t, r.value).kind == k) &&
      (r.Some? ==> forall q :: Visible(t, q, ign) && q != [] && PreLess(q, r.value) ==> ValidPath(t, q) && At(t, q).kind != k) &&
      (r.None? <==> forall q :: Visible(t, q, ign) && q != [] ==> ValidPath(t, q) && At(t, q).kind != k)
  {
    FindFirstSpec(Below(ByType(k)), t, ign);
    forall q | Visible(t, q, ign) ensures ValidPath(t, q) && (Hit(Below(ByType(k)), t, q) <==> q != [] && At(t, q).kind == k) {
      VisibleIsValid(t, q, ign);
      HitByType(k, t, q);
      HitBelow(ByType(k), t, q);
    }
  }

  /** A search from a node the target does not match finds what the search
      strictly below that node finds. */
  lemma SearchFromNonMatching(g: Target, t: Tree, ign: bool)
    requires !Matches(g, t)
    ensures FindFirst(g, t, ign) == FindFirst(Below(g), t, ign)
  {
    if HasSubs(t) && (!ign || t.obtained) {
      FindAmongSameSubs(g, Below(g), t, ign, 0);
    }
  }

  // -------------------------------------------------- getImmediateParent

  /** `getImmediateParent`: checks each child's type before searching that
      child's subtree; with `ign`, gives up at an unobtained node. */
  function GetImmediateParent(k: UnitType, t: Tree, ign: bool): Option<Path>
    decreases t, 1, 0
  {
    if ign && !t.obtained then None else ParentAmong(k, t, ign, 0)
  }

  function ParentAmong(k: UnitType, t: Tree, ign: bool, i: nat): Option<Path>
    requires i <= |t.subs|
    decreases t, 0, |t.subs| - i
  {
    if i == |t.subs| then None
    else if t.subs[i].kind == k then Some([])
    else match GetImmediateParent(k, t.subs[i], ign)
      case Some(p) => Some([i] + p)
      case None => ParentAmong(k, t, ign, i + 1)
  }

  function ParentOf(r: Option<Path>): Option<Path>
  {
    match r
    case Some(q) => if q == [] then None else Some(q[..|q| - 1])
    case None => None
  }

  /** `getImmediateParent` answers with the parent of the first reachable
      non-root node of the type, and with nothing when there is none. */
  lemma {:induction false} ImmediateParentIsParentOfFirst(k: UnitType, t: Tree, ign: bool)
    ensures GetImmediateParent(k, t, ign) == ParentOf(FindNodeBelowRoot(k, t, ign))
    decreases t, 1, 0
  {
    if !(ign && !t.obtained) {
      if HasSubs(t) { ParentAmongIsParentOfFirst(k, t, ign, 0); }
    }
  }

  lemma {:induction false} ParentAmongIsParentOfFirst(k: UnitType, t: Tree, ign: bool, i: nat)
    requires i <= |t.subs|
    ensures ParentAmong(k, t, ign, i) == ParentOf(FindAmong(Below(ByType(k)), t, ign, i))
    decreases t, 0, |t.subs| - i
  {
    if i < |t.subs| {
      var c := t.subs[i];
      assert Sub(Below(ByType(k)), i) == ByType(k);
      if c.kind != k {
        SearchFromNonMatching(ByType(k), c, ign);
        ImmediateParentIsParentOfFirst(k, c, ign);
        ParentAmongIsParentOfFirst(k, t, ign, i + 1);
        var r := FindFirst(Below(ByType(k)), c, ign);
        if r.Some? {
          FindBelowFacts(k, c, ign);
          var p := r.value;
          assert FindAmong(Below(ByType(k)), t, ign, i) == Some([i] + p);
          assert GetImmediateParent(k, c, ign) == Some(p[..|p| - 1]);
          assert ([i] + p)[..|[i] + p| - 1] == [i] + p[..|p| - 1];
        }
      }
    }
  }

  /** `getImmediateParent` as the rest of the library uses it. */
  function ImmediateParent(k: UnitType, t: Tree, ign: bool): (r: Option<Path>)
    ensures r.Some? <==> FindNodeBelowRoot(k, t, ign).Some?
    ensures r.Some? ==> var q := FindNodeBelowRoot(k, t, ign).value;
      ValidPath(t, r.value) && q == r.value + [q[|q| - 1]]
  {
    ImmediateParentFacts(k, t, ign);
    GetImmediateParent(k, t, ign)
  }

  lemma ImmediateParentFacts(k: UnitType, t: Tree, ign: bool)
    ensures var r := GetImmediateParent(k, t, ign);
      (r.Some? <==> FindNodeBelowRoot(k, t, ign).Some?) &&
      (r.Some? ==> var q := FindNodeBelowRoot(k, t, ign).value;
        ValidPath(t, r.value) && q == r.value + [q[|q| - 1]])
  {
    ImmediateParentIsParentOfFirst(k, t, ign);
    var f := FindNodeBelowRoot(k, t, ign);
    if f.Some? {
      var q := f.value;
      assert q == q[..|q| - 1] + [q[|q| - 1]];
      PrefixValid(t, q, |q| - 1);
    }
  }

  lemma {:induction false} PrefixValid(t: Tree, q: Path, n: nat)
    requires ValidPath(t, q) && n <= |q|
    ensures ValidPath(t, q[..n])
    decreases n
  {
    if n > 0 {
      assert q[..n][0] == q[0] && q[..n][1..] == q[1..][..n - 1];
      PrefixValid(t.subs[q[0]], q[1..], n - 1);
    }
  }

  // ------------------------------------------------------- prerequisites

  /** The types of the proper ancestors of the node at `q`, root first. */
  function Ancestry(t: Tree, q: Path): (r: seq<UnitType>)
    requires ValidPath(t, q)
    ensures |r| == |q|
    decreases q
  {
    if q == [] then [] else [t.kind] + Ancestry(t.subs[q[0]], q[1..])
  }

  /** `findPrereqNodes(type, tree, path)`, accumulator included. */
  function FindPrereqNodes(k: UnitType, t: Tree, path: seq<UnitType>): seq<UnitType>
    decreases t, 1, 0
  {
    if !HasSubs(t) then [] else PrereqAmong(k, t, path + [t.kind], 0)
  }

  function PrereqAmong(k: UnitType, t: Tree, path: seq<UnitType>, i: nat): seq<UnitType>
    requires i <= |t.subs|
    decreases t, 0, |t.subs| - i
  {
    if i == |t.subs| then []
    else if t.subs[i].kind == k then path
    else
      var res := FindPrereqNodes(k, t.subs[i], path);
      if |res| > 0 then res else PrereqAmong(k, t, path, i + 1)
  }

  /** `findPrereqNodes` lists the types on the way from the root to the parent
      of the first non-root node of the type (after the accumulated `path`),
      and is empty when the type does not occur below the root. */
  lemma {:induction false} PrereqNodesSpec(k: UnitType, t: Tree, path: seq<UnitType>)
    ensures var f := FindNodeBelowRoot(k, t, false);
      FindPrereqNodes(k, t, path) == (if f.Some? then path + Ancestry(t, f.value) else [])
    decreases t, 1, 0
  {
    if HasSubs(t) {
      PrereqAmongSpec(k, t, path + [t.kind], 0);
    }
  }

  lemma {:induction false} PrereqAmongSpec(k: UnitType, t: Tree, path: seq<UnitType>, i: nat)
    requires i <= |t.subs| && path != []
    ensures var f := FindAmong(Below(ByType(k)), t, false, i);
      f.Some? ==> f.value != [] && ValidPath(t, f.value)
    ensures var f := FindAmong(Below(ByType(k)), t, false, i);
      PrereqAmong(k, t, path, i) == (if f.Some? then path + Ancestry(t, f.value)[1..] else [])
    decreases t, 0, |t.subs| - i
  {
    if i < |t.subs| {
      var c := t.subs[i];
      PrereqAmongSpec(k, t, path, i + 1);
      assert Sub(Below(ByType(k)), i) == ByType(k);
      if c.kind == k {
        assert FindFirst(ByType(k), c, false) == Some([]);
        assert [i] + [] == [i];
        assert FindAmong(Below(ByType(k)), t, false, i) == Some([i]);
      } else {
        SearchFromNonMatching(ByType(k), c, false);
        PrereqNodesSpec(k, c, path);
        FindBelowFacts(k, c, false);
        var r := FindFirst(Below(ByType(k)), c, false);
        if r.Some? {
          var p := r.value;
          assert FindAmong(Below(ByType(k)), t, false, i) == Some([i] + p);
          ValidCons(t, i, p);
          assert ([i] + p)[0] == i && ([i] + p)[1..] == p;
          assert Ancestry(t, [i] + p)[1..] == Ancestry(c, p);
        }
      }
    }
  }

  /** `getUnitPrereqs`: the prerequisite types without the root. The source
      erases the first element unconditionally, so the type must occur below
      the root. */
  function GetUnitPrereqs(k: UnitType, t: Tree): (r: seq<UnitType>)
    requires FindNodeBelowRoot(k, t, false).Some?
    ensures var q := FindNodeBelowRoot(k, t, false).value;
      ValidPath(t, q) && r == Ancestry(t, q)[1..]
  {
    PrereqNodesSpec(k, t, []);
    var q := FindNodeBelowRoot(k, t, false).value;
    assert [] + Ancestry(t, q) == Ancestry(t, q);
    FindPrereqNodes(k, t, [])[1..]
  }

  /** A search whose first hit lies in child `j`: the node and the children
      before `j` hold no match. */
  lemma FoundInChild(g: Target, t: Tree, j: nat, p: Path)
    requires j < |t.subs| && !Matches(g, t) && FindFirst(Sub(g, j), t.subs[j], false) == Some(p)
    requires forall i :: 0 <= i < j ==> FindFirst(Sub(g, i), t.subs[i], false).None?
    ensures FindFirst(g, t, false) == Some([j] + p)
  {
    FoundFrom(g, t, j, p, 0);
  }

  /** The loop over the children, started at any child up to `j`, reaches
      the hit in child `j`. */
  lemma {:induction false} FoundFrom(g: Target, t: Tree, j: nat, p: Path, i: nat)
    requires i <= j < |t.subs| && FindFirst(Sub(g, j), t.subs[j], false) == Some(p)
    requires forall k :: i <= k < j ==> FindFirst(Sub(g, k), t.subs[k], false).None?
    ensures FindAmong(g, t, false, i) == Some([j] + p)
    decreases j - i
  {
    if i < j {
      FoundFrom(g, t, j, p, i + 1);
    }
  }
}
