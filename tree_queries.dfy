/**
 * The read-only traversals of the tech-tree library: `findLeafNodes`,
 * `findNonBuildingLeafNodes`, `findNextObtainableNodes`, `getObtainedNodes`
 * and `getFirstDifference`.
 *
 * The three collectors accumulate into a result-so-far while looping over the
 * children; they are one loop method over the pre-order `Walk` of the tree,
 * told apart by a `Mode`.
 */
module TreeQueries {
  import opened Wrappers
  import opened UnitTypes
  import opened TreeBasics

  lemma NodesAtAppend(t: Tree, ps: seq<Path>, qs: seq<Path>)
    requires forall q :: q in ps + qs ==> ValidPath(t, q)
    ensures NodesAt(t, ps + qs) == NodesAt(t, ps) + NodesAt(t, qs)
  {
  }

  lemma NodesAtUnder(t: Tree, i: nat, ps: seq<Path>)
    requires i < |t.subs| && forall q :: q in ps ==> ValidPath(t.subs[i], q)
    ensures (UnderValid(t, i, ps); NodesAt(t, Under(i, ps)) == NodesAt(t.subs[i], ps))
  {
    UnderValid(t, i, ps);
    forall j | 0 <= j < |ps| ensures At(t, Under(i, ps)[j]) == At(t.subs[i], ps[j]) {
      ValidCons(t, i, ps[j]);
    }
  }

  /** The nodes a traversal in mode `m` reports, in order: the node itself
      if it is kept, then, if it is entered, what each child reports. */
  function Collected(t: Tree, m: Mode): seq<Tree>
    decreases t, 1, 0
  {
    (if Keeps(m, t) then [t] else []) + (if Enters(m, t) then CollectedFrom(t, m, 0) else [])
  }

  function CollectedFrom(t: Tree, m: Mode, i: nat): seq<Tree>
    requires i <= |t.subs|
    decreases t, 0, |t.subs| - i
  {
    if i == |t.subs| then [] else Collected(t.subs[i], m) + CollectedFrom(t, m, i + 1)
  }

  /** The collected nodes are the nodes at the walk's positions. */
  lemma {:induction false} CollectedIsWalk(t: Tree, m: Mode)
    ensures Collected(t, m) == NodesAt(t, Walk(t, m))
    decreases t, 1, 0
  {
    CollectStart(t, m);
    if Enters(m, t) { CollectedFromIsWalk(t, m, 0); }
  }

  lemma {:induction false} CollectedFromIsWalk(t: Tree, m: Mode, i: nat)
    requires i <= |t.subs|
    ensures CollectedFrom(t, m, i) == NodesAt(t, WalkFrom(t, m, i))
    decreases t, 0, |t.subs| - i
  {
    if i < |t.subs| {
      CollectStep(t, m, i);
      CollectedIsWalk(t.subs[i], m);
      CollectedFromIsWalk(t, m, i + 1);
    }
  }

  lemma CollectStart(t: Tree, m: Mode)
    ensures NodesAt(t, Walk(t, m)) ==
      (if Keeps(m, t) then [t] else []) + (if Enters(m, t) then NodesAt(t, WalkFrom(t, m, 0)) else [])
  {
    var head: seq<Path> := if Keeps(m, t) then [[]] else [];
    NodesAtAppend(t, head, if Enters(m, t) then WalkFrom(t, m, 0) else []);
  }

  lemma CollectStep(t: Tree, m: Mode, i: nat)
    requires i < |t.subs|
    ensures NodesAt(t, WalkFrom(t, m, i)) ==
      NodesAt(t.subs[i], Walk(t.subs[i], m)) + NodesAt(t, WalkFrom(t, m, i + 1))
  {
    var w := Walk(t.subs[i], m);
    UnderValid(t, i, w);
    NodesAtAppend(t, Under(i, w), WalkFrom(t, m, i + 1));
    NodesAtUnder(t, i, w);
  }

  /** The recursive collector shared by `findLeafNodes`,
      `findNextObtainableNodes` and `getObtainedNodes`: append the node if
      the mode keeps it, then, if the mode enters it, collect from each child
      in turn into the result so far. */
  method Collect(t: Tree, m: Mode, acc: seq<Tree>) returns (r: seq<Tree>)
    ensures r == acc + Collected(t, m)
    decreases t
  {
    r := acc;
    if Keeps(m, t) {
      r := r + [t];
    }
    if !Enters(m, t) {
      return;
    }
    var i := 0;
    while i < |t.subs|
      invariant 0 <= i <= |t.subs|
      invariant r + CollectedFrom(t, m, i) == acc + Collected(t, m)
    {
      ghost var before := r;
      r := Collect(t.subs[i], m, r);
      CollectedChild(t, m, i, before, r);
      i := i + 1;
    }
  }

  /** Collecting child `i` into `before` leaves what the later children
      still owe. */
  lemma CollectedChild(t: Tree, m: Mode, i: nat, before: seq<Tree>, r: seq<Tree>)
    requires i < |t.subs| && r == before + Collected(t.subs[i], m)
    ensures r + CollectedFrom(t, m, i + 1) == before + CollectedFrom(t, m, i)
  {
  }

  lemma NodesAtMembers(t: Tree, ps: seq<Path>, n: Tree)
    requires forall q :: q in ps ==> ValidPath(t, q)
    ensures n in NodesAt(t, ps) <==> exists q :: q in ps && At(t, q) == n
  {
    if n in NodesAt(t, ps) {
      var j :| 0 <= j < |ps| && NodesAt(t, ps)[j] == n;
      assert ps[j] in ps;
    }
    if exists q :: q in ps && At(t, q) == n {
      var q :| q in ps && At(t, q) == n;
      var j :| 0 <= j < |ps| && ps[j] == q;
      assert NodesAt(t, ps)[j] == n;
    }
  }

  /** The leaf and obtained-node traversals enter every node. */
  lemma {:induction false} DescendsEverywhere(t: Tree, m: Mode, q: Path)
    requires !m.Frontier?
    ensures Descends(t, q, m) <==> ValidPath(t, q)
    decreases q
  {
    if q != [] && q[0] < |t.subs| { DescendsEverywhere(t.subs[q[0]], m, q[1..]); }
  }

  /** The frontier traversal reaches what a search ignoring unobtained
      subtrees reaches. */
  lemma {:induction false} DescendsFrontier(t: Tree, q: Path)
    ensures Descends(t, q, Frontier) <==> Visible(t, q, true)
    decreases q
  {
    if q != [] && q[0] < |t.subs| { DescendsFrontier(t.subs[q[0]], q[1..]); }
  }

  // -------------------------------------------------------- findLeafNodes

  /** `findLeafNodes(tree, resultSoFar)`. */
  method FindLeafNodes(t: Tree, acc: seq<Tree>) returns (r: seq<Tree>)
    ensures r == acc + NodesAt(t, Walk(t, Leaves))
  {
    r := Collect(t, Leaves, acc);
    CollectedIsWalk(t, Leaves);
  }

  /** The leaves are listed once each, in pre-order, and nothing else is. */
  lemma LeafNodesSpec(t: Tree)
    ensures forall q :: q in Walk(t, Leaves) <==> ValidPath(t, q) && !HasSubs(At(t, q))
    ensures Sorted(Walk(t, Leaves))
  {
    forall q ensures q in Walk(t, Leaves) <==> ValidPath(t, q) && !HasSubs(At(t, q)) {
      WalkMembers(t, Leaves, q);
      DescendsEverywhere(t, Leaves, q);
    }
    WalkSorted(t, Leaves);
  }

  /** `n` is a childless node somewhere in `t`. */
  ghost predicate IsLeafOf(t: Tree, n: Tree)
  {
    !HasSubs(n) && exists q :: ValidPath(t, q) && At(t, q) == n
  }

  /** A node is among the leaves found exactly when it is a leaf somewhere
      in the tree. */
  lemma LeafMembers(t: Tree, n: Tree)
    ensures n in NodesAt(t, Walk(t, Leaves)) <==> IsLeafOf(t, n)
  {
    var w := Walk(t, Leaves);
    NodesAtMembers(t, w, n);
    if n in NodesAt(t, w) {
      var q :| q in w && At(t, q) == n;
      WalkMembers(t, Leaves, q);
    }
    if exists q :: ValidPath(t, q) && At(t, q) == n {
      var q :| ValidPath(t, q) && At(t, q) == n;
      if !HasSubs(n) {
        WalkMembers(t, Leaves, q);
        DescendsEverywhere(t, Leaves, q);
      }
    }
  }

  // --------------------------------------------- findNonBuildingLeafNodes

  /** `remove_if(unobtained)` followed by `erase`: the obtained nodes, in
      their original order. */
  function KeepObtained(s: seq<Tree>): seq<Tree>
  {
    if s == [] then [] else (if s[0].obtained then [s[0]] else []) + KeepObtained(s[1..])
  }

  lemma {:induction false} KeepObtainedMembers(s: seq<Tree>, x: Tree)
    ensures |KeepObtained(s)| <= |s|
    ensures x in KeepObtained(s) <==> x in s && x.obtained
  {
    if s != [] {
      KeepObtainedMembers(s[1..], x);
      assert s == [s[0]] + s[1..];
    }
  }

  /** `remove_if(isBuilding)` followed by `erase`: the non-buildings, in
      their original order. */
  function DropBuildings(s: seq<Tree>, isBuilding: UnitType -> bool): seq<Tree>
  {
    if s == [] then [] else (if isBuilding(s[0].kind) then [] else [s[0]]) + DropBuildings(s[1..], isBuilding)
  }

  lemma {:induction false} DropBuildingsMembers(s: seq<Tree>, isBuilding: UnitType -> bool, x: Tree)
    ensures |DropBuildings(s, isBuilding)| <= |s|
    ensures x in DropBuildings(s, isBuilding) <==> x in s && !isBuilding(x.kind)
  {
    if s != [] {
      DropBuildingsMembers(s[1..], isBuilding, x);
      assert s == [s[0]] + s[1..];
    }
  }

  /** `findNonBuildingLeafNodes(tree)`: the leaves, less the unobtained ones,
      less the buildings. */
  method FindNonBuildingLeafNodes(t: Tree, isBuilding: UnitType -> bool) returns (r: seq<Tree>)
    ensures r == DropBuildings(KeepObtained(NodesAt(t, Walk(t, Leaves))), isBuilding)
  {
    var leaves := FindLeafNodes(t, []);
    assert leaves == NodesAt(t, Walk(t, Leaves));
    var obtained := KeepObtained(leaves);
    r := DropBuildings(obtained, isBuilding);
  }

  /** What `findNonBuildingLeafNodes` keeps: exactly the obtained,
      non-building leaves of the tree. */
  lemma NonBuildingLeafMembers(t: Tree, isBuilding: UnitType -> bool, n: Tree)
    ensures n in DropBuildings(KeepObtained(NodesAt(t, Walk(t, Leaves))), isBuilding) <==>
      n.obtained && !isBuilding(n.kind) && IsLeafOf(t, n)
  {
    var leaves := NodesAt(t, Walk(t, Leaves));
    LeafMembers(t, n);
    KeepObtainedMembers(leaves, n);
    DropBuildingsMembers(KeepObtained(leaves), isBuilding, n);
  }

  // ---------------------------------------------- findNextObtainableNodes

  /** `findNextObtainableNodes(tree, resultSoFar)`: an unobtained node is
      reported and not entered; an obtained one is entered. */
  method FindNextObtainableNodes(t: Tree, acc: seq<Tree>) returns (r: seq<Tree>)
    ensures r == acc + NodesAt(t, Walk(t, Frontier))
  {
    r := Collect(t, Frontier, acc);
    CollectedIsWalk(t, Frontier);
  }

  /** The next obtainable nodes are exactly the unobtained nodes all of whose
      ancestors are obtained (the frontier of the obtained region), once
      each, in pre-order. */
  lemma NextObtainableSpec(t: Tree)
    ensures forall q :: q in Walk(t, Frontier) <==>
      Visible(t, q, true) && ValidPath(t, q) && !At(t, q).obtained
    ensures Sorted(Walk(t, Frontier))
  {
    forall q ensures q in Walk(t, Frontier) <==> Visible(t, q, true) && ValidPath(t, q) && !At(t, q).obtained {
      WalkMembers(t, Frontier, q);
      DescendsFrontier(t, q);
    }
    WalkSorted(t, Frontier);
  }

  // ----------------------------------------------------- getObtainedNodes

  function Kinds(ns: seq<Tree>): (r: seq<UnitType>)
    ensures |r| == |ns| && forall j :: 0 <= j < |ns| ==> r[j] == ns[j].kind
  {
    seq(|ns|, j requires 0 <= j < |ns| => ns[j].kind)
  }

  /** `getObtainedNodes(tree, rsf)`: the types of the obtained nodes, in
      pre-order, after `rsf`. */
  method GetObtainedNodes(t: Tree, acc: seq<UnitType>) returns (r: seq<UnitType>)
    ensures r == acc + Kinds(NodesAt(t, Walk(t, Obtained)))
  {
    var ns := Collect(t, Obtained, []);
    CollectedIsWalk(t, Obtained);
    r := acc + Kinds(ns);
  }

  lemma ObtainedNodesSpec(t: Tree)
    ensures forall q :: q in Walk(t, Obtained) <==> ValidPath(t, q) && At(t, q).obtained
    ensures Sorted(Walk(t, Obtained))
  {
    forall q ensures q in Walk(t, Obtained) <==> ValidPath(t, q) && At(t, q).obtained {
      WalkMembers(t, Obtained, q);
      DescendsEverywhere(t, Obtained, q);
    }
    WalkSorted(t, Obtained);
  }

  // ---------------------------------------------------- getFirstDifference

  /** `getFirstDifference(tree1, tree2)`: the type of the first node (in
      pre-order) whose flag differs, with `None` for "no difference". A
      `None` from a child is taken for "nothing found there". The second tree
      is indexed with `vector::at`, which throws when it has fewer children:
      that outcome is `OutOfRange`. */
  function FirstDifference(a: Tree, b: Tree): Result<UnitType>
    decreases a, 1, 0
  {
    if a.obtained != b.obtained then Ok(a.kind) else DiffAmong(a, b, 0)
  }

  function DiffAmong(a: Tree, b: Tree, i: nat): Result<UnitType>
    requires i <= |a.subs|
    decreases a, 0, |a.subs| - i
  {
    if i == |a.subs| then Ok(NoneType)
    else if i >= |b.subs| then OutOfRange
    else match FirstDifference(a.subs[i], b.subs[i])
      case OutOfRange => OutOfRange
      case Ok(k) => if k != NoneType then Ok(k) else DiffAmong(a, b, i + 1)
  }

  ghost predicate Differs(a: Tree, b: Tree, q: Path)
  {
    ValidPath(a, q) && ValidPath(b, q) && At(a, q).obtained != At(b, q).obtained
  }

  ghost predicate IsFirstDiff(a: Tree, b: Tree, q: Path)
  {
    Differs(a, b, q) && forall q' :: PreLess(q', q) ==> !Differs(a, b, q')
  }

  lemma {:induction false} FirstDiffWitness(a: Tree, b: Tree) returns (w: Option<Path>)
    requires SameSkeleton(a, b) && NoneOnlyAtRoot(a)
    ensures w.Some? ==> IsFirstDiff(a, b, w.value) && FirstDifference(a, b) == Ok(At(a, w.value).kind)
    ensures w.None? ==> (forall q :: !Differs(a, b, q)) && FirstDifference(a, b) == Ok(NoneType)
    decreases a, 1, 0
  {
    if a.obtained != b.obtained {
      w := Some([]);
    } else {
      w := DiffAmongWitness(a, b, 0);
      if w.Some? {
        forall q' | PreLess(q', w.value) ensures !Differs(a, b, q') {
        }
      }
    }
  }

  lemma {:induction false} DiffAmongWitness(a: Tree, b: Tree, i: nat) returns (w: Option<Path>)
    requires SameSkeleton(a, b) && NoneOnlyAtRoot(a) && i <= |a.subs|
    ensures w.Some? ==> w.value != [] && w.value[0] >= i && Differs(a, b, w.value)
    ensures w.Some? ==> DiffAmong(a, b, i) == Ok(At(a, w.value).kind) && At(a, w.value).kind != NoneType
    ensures w.Some? ==> forall q' :: q' != [] && q'[0] >= i && PreLess(q', w.value) ==> !Differs(a, b, q')
    ensures w.None? ==> (forall q :: q != [] && q[0] >= i ==> !Differs(a, b, q)) && DiffAmong(a, b, i) == Ok(NoneType)
    decreases a, 0, |a.subs| - i
  {
    if i == |a.subs| {
      w := None;
    } else {
      var c, d := a.subs[i], b.subs[i];
      NoneOnlyAtRootSub(a, i);
      var wc := FirstDiffWitness(c, d);
      if wc.Some? {
        var p := wc.value;
        w := Some([i] + p);
        ValidCons(a, i, p);
        ValidCons(b, i, p);
        assert ValidPath(a, [i] + p);
        assert At(a, [i] + p).kind != NoneType by {
          if p == [] { assert At(a, [i] + p) == c; }
        }
        forall q' | q' != [] && q'[0] >= i && PreLess(q', [i] + p) ensures !Differs(a, b, q') {
          assert q' == [i] + q'[1..];
          PreLessCons(i, q'[1..], p);
          ValidCons(a, i, q'[1..]);
          ValidCons(b, i, q'[1..]);
        }
      } else {
        w := DiffAmongWitness(a, b, i + 1);
        forall q | q != [] && q[0] == i ensures !Differs(a, b, q) {
          assert q == [i] + q[1..];
          ValidCons(a, i, q[1..]);
          ValidCons(b, i, q[1..]);
          assert !Differs(c, d, q[1..]);
        }
      }
    }
  }

  /** On two trees of the same shape whose only `None` node is the root,
      `getFirstDifference` never throws; it names the type of the first node,
      in pre-order, whose flags differ, and answers `None` exactly when no
      flag differs or the differing node first reached is the `None` root. */
  lemma FirstDifferenceSpec(a: Tree, b: Tree)
    requires SameSkeleton(a, b) && NoneOnlyAtRoot(a)
    ensures FirstDifference(a, b).Ok?
    ensures forall q :: IsFirstDiff(a, b, q) ==> FirstDifference(a, b).value == At(a, q).kind
    ensures FirstDifference(a, b).value == NoneType <==>
      (forall q :: !Differs(a, b, q)) || (a.obtained != b.obtained && a.kind == NoneType)
  {
    var w := FirstDiffWitness(a, b);
    if w.Some? {
      forall q | IsFirstDiff(a, b, q) ensures q == w.value {
        if q != w.value { PreLessTotal(q, w.value); }
      }
      assert Differs(a, b, w.value);
      if w.value != [] { assert At(a, w.value).kind != NoneType; }
      if a.obtained != b.obtained { assert Differs(a, b, []); }
    }
  }

  /** An example of the throw: the second tree lacks the first one's only
      child, and no flag differs before the walk gets there. */
  lemma FirstDifferenceThrows()
    ensures FirstDifference(Branch(NoneType, [Leaf(ProtossNexus)]), Leaf(NoneType)) == OutOfRange
  {
  }

  // ------------------------------------------- when getFirstDifference throws

  /** `q` is a child that the first tree has and the second lacks, below
      nodes that both trees have. */
  ghost predicate Missing(a: Tree, b: Tree, q: Path)
    decreases q
  {
    q != [] && q[0] < |a.subs| &&
    if q[0] >= |b.subs| then q[1..] == [] else Missing(a.subs[q[0]], b.subs[q[0]], q[1..])
  }

  /** The walk gets to the missing child at `q`: no flag differs at any
      position before `q` in pre-order, the ancestors of `q` included. */
  ghost predicate ReachesMissing(a: Tree, b: Tree, q: Path)
  {
    Missing(a, b, q) && forall q' :: PreLess(q', q) ==> !Differs(a, b, q')
  }

  lemma DiffersCons(a: Tree, b: Tree, i: nat, p: Path)
    requires i < |a.subs| && i < |b.subs|
    ensures Differs(a, b, [i] + p) == Differs(a.subs[i], b.subs[i], p)
  {
    ValidCons(a, i, p);
    ValidCons(b, i, p);
  }

  /** With no flag differing anywhere, the walk names no type: it answers
      `None` or throws. */
  lemma {:induction false} NoDiffNamesNothing(a: Tree, b: Tree)
    requires forall p :: !Differs(a, b, p)
    ensures FirstDifference(a, b).Ok? ==> FirstDifference(a, b).value == NoneType
    decreases a, 1, 0
  {
    assert !Differs(a, b, []);
    NoDiffAmongNamesNothing(a, b, 0);
  }

  lemma {:induction false} NoDiffAmongNamesNothing(a: Tree, b: Tree, i: nat)
    requires i <= |a.subs| && forall p :: !Differs(a, b, p)
    ensures DiffAmong(a, b, i).Ok? ==> DiffAmong(a, b, i).value == NoneType
    decreases a, 0, |a.subs| - i
  {
    if i < |a.subs| && i < |b.subs| {
      forall p: Path ensures !Differs(a.subs[i], b.subs[i], p) {
        DiffersCons(a, b, i, p);
      }
      NoDiffNamesNothing(a.subs[i], b.subs[i]);
      NoDiffAmongNamesNothing(a, b, i + 1);
    }
  }

  /** A walk that answers `None` below a node that is not `None` met no
      differing flag. */
  lemma {:induction false} NoneAnswerNoDiff(a: Tree, b: Tree)
    requires NoneOnlyAtRoot(a) && a.kind != NoneType && FirstDifference(a, b) == Ok(NoneType)
    ensures forall p :: !Differs(a, b, p)
    decreases a, 1, 0
  {
    NoneAmongNoDiff(a, b, 0);
  }

  lemma {:induction false} NoneAmongNoDiff(a: Tree, b: Tree, i: nat)
    requires NoneOnlyAtRoot(a) && i <= |a.subs| && DiffAmong(a, b, i) == Ok(NoneType)
    ensures forall p :: p != [] && p[0] >= i ==> !Differs(a, b, p)
    decreases a, 0, |a.subs| - i
  {
    if i < |a.subs| {
      NoneOnlyAtRootSub(a, i);
      NoneAnswerNoDiff(a.subs[i], b.subs[i]);
      NoneAmongNoDiff(a, b, i + 1);
      forall p | p != [] && p[0] >= i ensures !Differs(a, b, p) {
        if p[0] == i {
          assert p == [i] + p[1..];
          DiffersCons(a, b, i, p[1..]);
        }
      }
    }
  }

  /** The walk throws whenever it gets to a missing child, whatever the
      trees. */
  lemma {:induction false} ReachedMissingThrows(a: Tree, b: Tree, q: Path)
    requires ReachesMissing(a, b, q)
    ensures FirstDifference(a, b) == OutOfRange
    decreases a, 1, 0
  {
    assert PreLess([], q);
    AmongReachesMissing(a, b, q, 0);
  }

  lemma {:induction false} AmongReachesMissing(a: Tree, b: Tree, q: Path, i: nat)
    requires ReachesMissing(a, b, q) && i <= q[0]
    ensures DiffAmong(a, b, i) == OutOfRange
    decreases a, 0, |a.subs| - i
  {
    if i < |b.subs| {
      var c, d := a.subs[i], b.subs[i];
      if i == q[0] {
        assert q == [i] + q[1..];
        forall q'' | PreLess(q'', q[1..]) ensures !Differs(c, d, q'') {
          PreLessCons(i, q'', q[1..]);
          DiffersCons(a, b, i, q'');
        }
        ReachedMissingThrows(c, d, q[1..]);
      } else {
        forall p: Path ensures !Differs(c, d, p) {
          assert ([i] + p)[0] == i;
          assert PreLess([i] + p, q);
          DiffersCons(a, b, i, p);
        }
        NoDiffNamesNothing(c, d);
        AmongReachesMissing(a, b, q, i + 1);
      }
    }
  }

  /** When the walk throws below a tree whose only `None` node is the
      root, it got to a missing child. */
  lemma {:induction false} ThrowWitness(a: Tree, b: Tree) returns (q: Path)
    requires NoneOnlyAtRoot(a) && FirstDifference(a, b) == OutOfRange
    ensures ReachesMissing(a, b, q)
    decreases a, 1, 0
  {
    q := AmongThrowWitness(a, b, 0);
  }

  lemma {:induction false} AmongThrowWitness(a: Tree, b: Tree, i: nat) returns (q: Path)
    requires NoneOnlyAtRoot(a) && i <= |a.subs| && DiffAmong(a, b, i) == OutOfRange
    ensures Missing(a, b, q) && q[0] >= i
    ensures forall q' :: q' != [] && q'[0] >= i && PreLess(q', q) ==> !Differs(a, b, q')
    decreases a, 0, |a.subs| - i
  {
    if i >= |b.subs| {
      q := [i];
      assert q[1..] == [];
    } else {
      var c, d := a.subs[i], b.subs[i];
      NoneOnlyAtRootSub(a, i);
      if FirstDifference(c, d) == OutOfRange {
        var p := ThrowWitness(c, d);
        q := [i] + p;
        assert q[0] == i && q[1..] == p;
        forall q' | q' != [] && q'[0] >= i && PreLess(q', q) ensures !Differs(a, b, q') {
          assert q' == [i] + q'[1..];
          PreLessCons(i, q'[1..], p);
          DiffersCons(a, b, i, q'[1..]);
        }
      } else {
        NoneAnswerNoDiff(c, d);
        q := AmongThrowWitness(a, b, i + 1);
        forall q' | q' != [] && q'[0] >= i && PreLess(q', q) ensures !Differs(a, b, q') {
          if q'[0] == i {
            assert q' == [i] + q'[1..];
            DiffersCons(a, b, i, q'[1..]);
          }
        }
      }
    }
  }

  /** `getFirstDifference` throws exactly when its walk gets to a child
      that the first tree has and the second lacks before it meets a
      differing flag (for a first tree whose only `None` node is the root:
      a differing `None` node deeper down would be passed over). */
  lemma FirstDifferenceThrowsExactly(a: Tree, b: Tree)
    requires NoneOnlyAtRoot(a)
    ensures FirstDifference(a, b) == OutOfRange <==> exists q :: ReachesMissing(a, b, q)
  {
    if exists q :: ReachesMissing(a, b, q) {
      var q :| ReachesMissing(a, b, q);
      ReachedMissingThrows(a, b, q);
    }
    if FirstDifference(a, b) == OutOfRange {
      var q := ThrowWitness(a, b);
    }
  }
}
