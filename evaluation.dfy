/**
 * The effect-free helpers of the build search: `generateMoves`, which lists
 * what a player can research next, and `evaluateTree`, which scores one
 * player's fielded units against the other's.
 *
 * The engine's static unit score and static advantage are integer functions
 * supplied from outside, and so is the building test; the model keeps all
 * three uninterpreted.
 */
module Evaluation {
  import opened UnitTypes
  import opened TreeBasics
  import opened TreeQueries

  /** The engine knowledge the evaluation consults. */
  datatype Scoring = Scoring(
    isBuilding: UnitType -> bool,
    unitScore: UnitType -> int,
    advantage: (UnitType, UnitType) -> int)

  /** The base score of every unit the first player fields. */
  const UNIT_BASE_SCORE: int := 1000

  // ------------------------------------------------------- generateMoves

  /** The types a player can research next, read off the tree: an
      unobtained node is a move and is not entered; an obtained node offers
      the moves of its children, in order. */
  function Moves(t: Tree): seq<UnitType>
    decreases t, 1, 0
  {
    if !t.obtained then [t.kind] else MovesFrom(t, 0)
  }

  function MovesFrom(t: Tree, i: nat): seq<UnitType>
    requires i <= |t.subs|
    decreases t, 0, |t.subs| - i
  {
    if i == |t.subs| then [] else Moves(t.subs[i]) + MovesFrom(t, i + 1)
  }

  /** `generateMoves(tree)`: the loop copying the type of each next
      obtainable node. */
  method GenerateMoves(t: Tree) returns (moves: seq<UnitType>)
    ensures moves == Moves(t)
  {
    var nodes := FindNextObtainableNodes(t, []);
    moves := [];
    var i := 0;
    while i < |nodes|
      invariant 0 <= i <= |nodes|
      invariant moves == Kinds(nodes[..i])
    {
      moves := moves + [nodes[i].kind];
      i := i + 1;
    }
    assert nodes[..i] == nodes;
    MovesAreFrontier(t);
  }

  /** The moves are the types of the next obtainable nodes, in pre-order. */
  lemma {:induction false} MovesAreFrontier(t: Tree)
    ensures Moves(t) == Kinds(NodesAt(t, Walk(t, Frontier)))
    decreases t, 1, 0
  {
    if t.obtained {
      MovesFromAreFrontier(t, 0);
      assert Walk(t, Frontier) == WalkFrom(t, Frontier, 0);
    } else {
      assert Walk(t, Frontier) == [[]];
    }
  }

  lemma {:induction false} MovesFromAreFrontier(t: Tree, i: nat)
    requires i <= |t.subs|
    ensures MovesFrom(t, i) == Kinds(NodesAt(t, WalkFrom(t, Frontier, i)))
    decreases t, 0, |t.subs| - i
  {
    if i < |t.subs| {
      var w := Walk(t.subs[i], Frontier);
      MovesAreFrontier(t.subs[i]);
      MovesFromAreFrontier(t, i + 1);
      UnderValid(t, i, w);
      KindsAppend(t, Under(i, w), WalkFrom(t, Frontier, i + 1));
      KindsUnder(t, i, w);
    }
  }

  lemma KindsAppend(t: Tree, a: seq<Path>, b: seq<Path>)
    requires forall q :: q in a ==> ValidPath(t, q)
    requires forall q :: q in b ==> ValidPath(t, q)
    ensures Kinds(NodesAt(t, a + b)) == Kinds(NodesAt(t, a)) + Kinds(NodesAt(t, b))
  {
    var l, r := Kinds(NodesAt(t, a + b)), Kinds(NodesAt(t, a)) + Kinds(NodesAt(t, b));
    forall j | 0 <= j < |l| ensures l[j] == r[j] {
      if j >= |a| { assert (a + b)[j] == b[j - |a|]; }
    }
  }

  lemma KindsUnder(t: Tree, i: nat, w: seq<Path>)
    requires i < |t.subs| && forall q :: q in w ==> ValidPath(t.subs[i], q)
    requires forall q :: q in Under(i, w) ==> ValidPath(t, q)
    ensures Kinds(NodesAt(t, Under(i, w))) == Kinds(NodesAt(t.subs[i], w))
  {
    var l, r := Kinds(NodesAt(t, Under(i, w))), Kinds(NodesAt(t.subs[i], w));
    forall j | 0 <= j < |l| ensures l[j] == r[j] {
      assert ([i] + w[j])[1..] == w[j];
    }
  }

  /** Some unobtained node of type `k` has only obtained ancestors. */
  ghost predicate OnFrontier(t: Tree, k: UnitType)
  {
    exists q :: Visible(t, q, true) && ValidPath(t, q) && !At(t, q).obtained && At(t, q).kind == k
  }

  /** A type is a move exactly when some unobtained node of that type has
      only obtained ancestors. */
  lemma MovesAreFrontierTypes(t: Tree, k: UnitType)
    ensures k in Moves(t) <==> OnFrontier(t, k)
  {
    var w := Walk(t, Frontier);
    NextObtainableSpec(t);
    MovesAreFrontier(t);
    if k in Moves(t) {
      var j :| 0 <= j < |w| && Moves(t)[j] == k;
      var q := w[j];
      assert q in w;
      assert At(t, q).kind == k;
    }
    if OnFrontier(t, k) {
      var q :| Visible(t, q, true) && ValidPath(t, q) && !At(t, q).obtained && At(t, q).kind == k;
      assert q in w;
      var j :| 0 <= j < |w| && w[j] == q;
      assert Moves(t)[j] == k;
    }
  }

  // -------------------------------------------------------- evaluateTree

  /** The types of the obtained, non-building leaves: the units a player
      fields, in pre-order. */
  function Fielded(t: Tree, isBuilding: UnitType -> bool): seq<UnitType>
  {
    Kinds(DropBuildings(KeepObtained(NodesAt(t, Walk(t, Leaves))), isBuilding))
  }

  /** The score of one pairing of a unit against an enemy unit. */
  function PairScore(sc: Scoring, f: UnitType, s: UnitType): int
  {
    sc.unitScore(f) - sc.unitScore(s) + sc.advantage(f, s)
  }

  /** One unit scored against every enemy unit. */
  function RowScore(sc: Scoring, f: UnitType, ss: seq<UnitType>): int
  {
    if ss == [] then 0 else RowScore(sc, f, ss[..|ss| - 1]) + PairScore(sc, f, ss[|ss| - 1])
  }

  /** The evaluation of `fs` against `ss`: a base score per unit of `fs`
      plus its row of pairings. */
  function TreeScore(sc: Scoring, fs: seq<UnitType>, ss: seq<UnitType>): int
  {
    if fs == [] then 0 else TreeScore(sc, fs[..|fs| - 1], ss) + UNIT_BASE_SCORE + RowScore(sc, fs[|fs| - 1], ss)
  }

  /** `evaluateTree(first, second)`: the nested loops over the fielded
      units of both trees. */
  method EvaluateTree(sc: Scoring, first: Tree, second: Tree) returns (eval: int)
    ensures eval == TreeScore(sc, Fielded(first, sc.isBuilding), Fielded(second, sc.isBuilding))
  {
    var fs := FindNonBuildingLeafNodes(first, sc.isBuilding);
    var ss := FindNonBuildingLeafNodes(second, sc.isBuilding);
    eval := ScoreUnits(sc, fs, ss);
  }

  /** The outer loop of `evaluateTree`: each unit of ours in turn gets the
      base score and its row of pairings. */
  method ScoreUnits(sc: Scoring, fs: seq<Tree>, ss: seq<Tree>) returns (eval: int)
    ensures eval == TreeScore(sc, Kinds(fs), Kinds(ss))
  {
    ghost var fk := Kinds(fs);
    ghost var sk := Kinds(ss);
    eval := 0;
    var i := 0;
    while i < |fs|
      invariant 0 <= i <= |fs|
      invariant eval == TreeScore(sc, fk[..i], sk)
    {
      eval := eval + UNIT_BASE_SCORE;
      eval := AddRow(sc, fs[i].kind, ss, eval);
      TreeStep(sc, fk, sk, i);
      i := i + 1;
    }
    assert fk[..i] == fk;
  }

  /** The inner loop of `evaluateTree`: one unit of ours scored against
      each enemy unit in turn, added to `eval`. */
  method AddRow(sc: Scoring, f: UnitType, ss: seq<Tree>, eval0: int) returns (eval: int)
    ensures eval == eval0 + RowScore(sc, f, Kinds(ss))
  {
    eval := eval0;
    var j := 0;
    while j < |ss|
      invariant 0 <= j <= |ss|
      invariant eval == eval0 + RowScore(sc, f, Kinds(ss)[..j])
    {
      var current := 0;
      current := current + sc.unitScore(f);
      current := current - sc.unitScore(ss[j].kind);
      current := current + sc.advantage(f, ss[j].kind);
      RowStep(sc, f, ss, j);
      eval := eval + current;
      j := j + 1;
    }
    RowDone(sc, f, ss);
  }

  lemma RowStep(sc: Scoring, f: UnitType, ss: seq<Tree>, j: nat)
    requires j < |ss|
    ensures RowScore(sc, f, Kinds(ss)[..j + 1]) ==
      RowScore(sc, f, Kinds(ss)[..j]) + sc.unitScore(f) - sc.unitScore(ss[j].kind) + sc.advantage(f, ss[j].kind)
  {
    var sk := Kinds(ss);
    assert sk[..j + 1][..j] == sk[..j];
  }

  lemma RowDone(sc: Scoring, f: UnitType, ss: seq<Tree>)
    ensures RowScore(sc, f, Kinds(ss)[..|ss|]) == RowScore(sc, f, Kinds(ss))
  {
    assert Kinds(ss)[..|ss|] == Kinds(ss);
  }

  lemma TreeStep(sc: Scoring, fs: seq<UnitType>, ss: seq<UnitType>, i: nat)
    requires i < |fs|
    ensures TreeScore(sc, fs[..i + 1], ss) == TreeScore(sc, fs[..i], ss) + UNIT_BASE_SCORE + RowScore(sc, fs[i], ss)
  {
    assert fs[..i + 1][..i] == fs[..i];
  }

  // ------------------------------------------------- the evaluation, summed

  function UnitTotal(sc: Scoring, us: seq<UnitType>): int
  {
    if us == [] then 0 else UnitTotal(sc, us[..|us| - 1]) + sc.unitScore(us[|us| - 1])
  }

  function AdvantageRow(sc: Scoring, f: UnitType, ss: seq<UnitType>): int
  {
    if ss == [] then 0 else AdvantageRow(sc, f, ss[..|ss| - 1]) + sc.advantage(f, ss[|ss| - 1])
  }

  function AdvantageTotal(sc: Scoring, fs: seq<UnitType>, ss: seq<UnitType>): int
  {
    if fs == [] then 0 else AdvantageTotal(sc, fs[..|fs| - 1], ss) + AdvantageRow(sc, fs[|fs| - 1], ss)
  }

  lemma {:induction false} RowClosedForm(sc: Scoring, f: UnitType, ss: seq<UnitType>)
    ensures RowScore(sc, f, ss) == |ss| * sc.unitScore(f) - UnitTotal(sc, ss) + AdvantageRow(sc, f, ss)
    decreases |ss|
  {
    if ss != [] {
      RowClosedForm(sc, f, ss[..|ss| - 1]);
    }
  }

  /** The evaluation in closed form: 1000 for each unit fielded by the first
      player, plus, summed over all pairings, the static score difference
      and the static advantage. */
  lemma {:induction false} TreeScoreClosedForm(sc: Scoring, fs: seq<UnitType>, ss: seq<UnitType>)
    ensures TreeScore(sc, fs, ss) ==
      UNIT_BASE_SCORE * |fs| + |ss| * UnitTotal(sc, fs) - |fs| * UnitTotal(sc, ss) + AdvantageTotal(sc, fs, ss)
    decreases |fs|
  {
    if fs != [] {
      var init := fs[..|fs| - 1];
      TreeScoreClosedForm(sc, init, ss);
      RowClosedForm(sc, fs[|fs| - 1], ss);
      calc {
        TreeScore(sc, fs, ss);
        TreeScore(sc, init, ss) + UNIT_BASE_SCORE + RowScore(sc, fs[|fs| - 1], ss);
        UNIT_BASE_SCORE * |init| + |ss| * UnitTotal(sc, init) - |init| * UnitTotal(sc, ss) + AdvantageTotal(sc, init, ss)
          + UNIT_BASE_SCORE + |ss| * sc.unitScore(fs[|fs| - 1]) - UnitTotal(sc, ss) + AdvantageRow(sc, fs[|fs| - 1], ss);
        { assert |fs| == |init| + 1; }
        UNIT_BASE_SCORE * |fs| + |ss| * UnitTotal(sc, fs) - |fs| * UnitTotal(sc, ss) + AdvantageTotal(sc, fs, ss);
      }
    }
  }

  /** A player that fields nothing scores 0; against a player that fields
      nothing, each unit scores exactly its base score. */
  lemma EmptySides(sc: Scoring, fs: seq<UnitType>)
    ensures TreeScore(sc, [], fs) == 0
    ensures TreeScore(sc, fs, []) == UNIT_BASE_SCORE * |fs|
  {
    TreeScoreClosedForm(sc, fs, []);
    TreeScoreClosedForm(sc, [], fs);
    AdvantageEmpty(sc, fs);
  }

  lemma {:induction false} AdvantageEmpty(sc: Scoring, fs: seq<UnitType>)
    ensures AdvantageTotal(sc, fs, []) == 0
    decreases |fs|
  {
    if fs != [] { AdvantageEmpty(sc, fs[..|fs| - 1]); }
  }
}
