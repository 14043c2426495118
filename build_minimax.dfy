/**
 * The build search: two tech trees, one per player, searched by minimax
 * (plain and with alpha-beta pruning) to choose the next tech to go for.
 *
 * A move is a type on the mover's frontier; playing it is
 * `setBuildingNodeObtained(move, tree)` and taking it back is the same call
 * with `false`. The searches work in place on the two trees; each is
 * specified by a recursive function over the pair of trees that returns the
 * best tree, the score and the trees left behind.
 */
module BuildMinimax {
  import opened Wrappers
  import opened UnitTypes
  import opened TreeBasics
  import opened TreeSearch
  import opened TreeUpdate
  import opened TreeQueries
  import opened TechTemplates
  import opened Evaluation

  /** The depth `updateTargetTech` searches to. */
  const DEFAULT_DEPTH: int := 2

  /** The player ids of a one-against-one game. */
  const SELF: int := 0
  const ENEMY: int := 1

  /** The 32-bit bounds the plain search starts from. */
  const INT_MIN: int := -0x8000_0000
  const INT_MAX: int := 0x7fff_ffff

  type Player = p: int | p == SELF || p == ENEMY

  function Opponent(p: Player): (r: Player)
    ensures r != p
  {
    if p == SELF then ENEMY else SELF
  }

  /** The two trees, indexed by player. */
  type State = s: seq<Tree> | |s| == 2 witness [NULL_TREE, NULL_TREE]

  /** `setBuildingNodeObtained(move, _gameTreeState[player], v)`. */
  function Play(st: State, player: Player, m: UnitType, v: bool, sc: Scoring): State
  {
    st[player := BuildingObtained(m, st[player], v, sc.isBuilding).0]
  }

  /** `evaluateGameState()`: the first player's trees scored against the
      second's. */
  function Evaluate(st: State, sc: Scoring): int
  {
    TreeScore(sc, Fielded(st[SELF], sc.isBuilding), Fielded(st[ENEMY], sc.isBuilding))
  }

  /** What a search returns, and the trees it leaves behind. */
  datatype Outcome = Outcome(best: Tree, score: int, after: State)

  /** Is `score` an improvement on `bound` for `player`?  The first player
      maximises, the second minimises, both strictly. */
  predicate Improves(player: Player, score: int, bound: int)
  {
    if player == SELF then score > bound else score < bound
  }

  // ------------------------------------------------------------ minimax

  /** `minimax(depth, player)`. */
  function MinimaxSpec(depth: int, player: Player, st: State, sc: Scoring): Outcome
    decreases if depth > 0 then depth else 0, 1, 0
  {
    var moves := Moves(st[player]);
    if |moves| == 0 || depth <= 0 then Outcome(NULL_TREE, Evaluate(st, sc), st)
    else MinimaxLoop(depth, player, moves, Outcome(NULL_TREE, if player == SELF then INT_MIN else INT_MAX, st), sc)
  }

  /** The loop of `minimax` over the moves still to try, from the best tree,
      best score and trees reached so far. */
  function MinimaxLoop(depth: int, player: Player, moves: seq<UnitType>, acc: Outcome, sc: Scoring): Outcome
    requires depth > 0
    decreases depth, 0, |moves|
  {
    if moves == [] then acc
    else MinimaxLoop(depth, player, moves[1..], MinimaxStep(depth, player, moves[0], acc, sc), sc)
  }

  /** One pass of the loop of `minimax`: play the move, search the
      opponent's reply, keep the tree if the score improves, take the move
      back. */
  function MinimaxStep(depth: int, player: Player, m: UnitType, acc: Outcome, sc: Scoring): Outcome
    requires depth > 0
    decreases depth, 0, 0
  {
    var child := MinimaxSpec(depth - 1, Opponent(player), Play(acc.after, player, m, true, sc), sc);
    var better := Improves(player, child.score, acc.score);
    Outcome(
      if better then child.after[player] else acc.best,
      if better then child.score else acc.score,
      Play(child.after, player, m, false, sc))
  }

  lemma MinimaxLoopUnfold(depth: int, player: Player, moves: seq<UnitType>, i: int, acc: Outcome, sc: Scoring)
    requires depth > 0 && 0 <= i < |moves|
    ensures MinimaxLoop(depth, player, moves[i..], acc, sc) ==
      MinimaxLoop(depth, player, moves[i + 1..], MinimaxStep(depth, player, moves[i], acc, sc), sc)
  {
    assert moves[i..][1..] == moves[i + 1..];
  }

  // ------------------------------------------------- minimaxAlphaBeta

  /** `minimaxAlphaBeta(depth, player, alpha, beta)`. */
  function AlphaBetaSpec(depth: int, player: Player, alpha: int, beta: int, st: State, sc: Scoring): Outcome
    decreases if depth > 0 then depth else 0, 1, 0
  {
    var moves := Moves(st[player]);
    if |moves| == 0 || depth <= 0 then Outcome(NULL_TREE, Evaluate(st, sc), st)
    else AlphaBetaLoop(depth, player, moves, Window(alpha, beta, NULL_TREE, st), sc)
  }

  /** The bounds and the best tree carried from one pass of the loop of
      `minimaxAlphaBeta` to the next, and the trees reached. */
  datatype Window = Window(alpha: int, beta: int, best: Tree, trees: State)

  /** What the pruned search returns from a window: the bound of the player
      to move. */
  function Close(player: Player, w: Window): Outcome
  {
    Outcome(w.best, if player == SELF then w.alpha else w.beta, w.trees)
  }

  /** The loop of `minimaxAlphaBeta` over the moves still to try; it stops
      early, after taking the move back, once `alpha >= beta`. */
  function AlphaBetaLoop(depth: int, player: Player, moves: seq<UnitType>, w: Window, sc: Scoring): Outcome
    requires depth > 0
    decreases depth, 0, |moves|
  {
    if moves == [] then Close(player, w)
    else
      var w' := AlphaBetaStep(depth, player, moves[0], w, sc);
      if w'.alpha >= w'.beta then Close(player, w')
      else AlphaBetaLoop(depth, player, moves[1..], w', sc)
  }

  /** One pass of the loop of `minimaxAlphaBeta`: play the move, search the
      opponent's reply within the window, narrow the mover's bound if the
      reply improves it, take the move back. */
  function AlphaBetaStep(depth: int, player: Player, m: UnitType, w: Window, sc: Scoring): Window
    requires depth > 0
    decreases depth, 0, 0
  {
    var child := AlphaBetaSpec(depth - 1, Opponent(player), w.alpha, w.beta, Play(w.trees, player, m, true, sc), sc);
    var better := Improves(player, child.score, if player == SELF then w.alpha else w.beta);
    Window(
      if player == SELF && better then child.score else w.alpha,
      if player == ENEMY && better then child.score else w.beta,
      if better then child.after[player] else w.best,
      Play(child.after, player, m, false, sc))
  }

  lemma AlphaBetaLoopUnfold(depth: int, player: Player, moves: seq<UnitType>, i: int, w: Window, sc: Scoring)
    requires depth > 0 && 0 <= i < |moves|
    ensures var w' := AlphaBetaStep(depth, player, moves[i], w, sc);
      AlphaBetaLoop(depth, player, moves[i..], w, sc) ==
      if w'.alpha >= w'.beta then Close(player, w') else AlphaBetaLoop(depth, player, moves[i + 1..], w', sc)
  {
    assert moves[i..][1..] == moves[i + 1..];
  }

  /** `minimaxNextBuilding(depth)`: the first type whose flag differs between
      the best tree of the pruned search and the first player's tree. */
  function NextBuilding(depth: int, st: State, sc: Scoring): Result<UnitType>
  {
    FirstDifference(AlphaBetaSpec(depth, SELF, INT_MIN, INT_MAX, st, sc).best, AlphaBetaSpec(depth, SELF, INT_MIN, INT_MAX, st, sc).after[SELF])
  }

  // ------------------------------------------------------- updateTechTree

  /** The loop of `updateTechTree`: for each reported type, its
      prerequisites are flagged, then the type itself is played. */
  function Record(units: seq<UnitType>, t: Tree, sc: Scoring): Tree
    decreases |units|
  {
    if units == [] then t
    else
      var withPrereqs := SetAll(FindPrereqNodes(units[0], t, []), t, true).0;
      Record(units[1..], BuildingObtained(units[0], withPrereqs, true, sc.isBuilding).0, sc)
  }

  /** The tree `updateTechTree` starts from: the race's template when the
      stored tree is still the null tree (trees compare by root type). */
  function Initialised(t: Tree, race: Race): Tree
  {
    if SameType(t, NULL_TREE) then GetBaseTree(race) else t
  }

  /** The trees after `updateTechTree`'s recording part. */
  function Recorded(st: State, order: seq<UnitType>, player: Player, race: Race, sc: Scoring): State
  {
    st[player := Record(order, Initialised(st[player], race), sc)]
  }

  /** The loop of `updateTechTree` over the reported types: for each,
      flag its prerequisites, then play it. */
  method RecordAll(order: seq<UnitType>, t: Tree, sc: Scoring) returns (r: Tree)
    ensures r == Record(order, t, sc)
  {
    r := t;
    var i := 0;
    while i < |order|
      invariant 0 <= i <= |order|
      invariant Record(order, t, sc) == Record(order[i..], r, sc)
    {
      assert order[i..][0] == order[i] && order[i..][1..] == order[i + 1..];
      var withPrereqs, _ := SetPrereqsObtained(order[i], r, true);
      var played, _ := SetBuildingNodeObtained(order[i], withPrereqs, true, sc.isBuilding);
      r := played;
      i := i + 1;
    }
  }

  /** The trees and target after `updateTargetTech()`: the trees as the
      pruned search leaves them, and the next building as the target unless
      the lookup throws. */
  function Retargeted(st: State, target: UnitType, sc: Scoring): (State, UnitType)
  {
    var r := NextBuilding(DEFAULT_DEPTH, st, sc);
    (AlphaBetaSpec(DEFAULT_DEPTH, SELF, INT_MIN, INT_MAX, st, sc).after, if r.Ok? then r.value else target)
  }

  /** The comparison in the loop of `minimax`: the kept score is the best
      so far or the reply's, never worse for `player` than either, and the
      kept tree is the one the reply was played on exactly when the score
      moved (on a tie, the earlier tree stays). */
  method KeptIfBetter(player: Player, current: int, score: int, best: Tree, tree: Tree) returns (best': Tree, score': int)
    ensures score' == score || score' == current
    ensures !Improves(player, score, score') && !Improves(player, current, score')
    ensures best' == (if score' == score then best else tree)
  {
    best', score' := best, score;
    if player == SELF {
      if current > score' {
        score' := current;
        best' := tree;
      }
    } else {
      if current < score' {
        score' := current;
        best' := tree;
      }
    }
  }

  /** The comparison in the loop of `minimaxAlphaBeta`: only the mover's
      own bound moves (`alpha` for the first player, `beta` for the
      second); it becomes the old bound or the reply's score, never worse
      for the mover than either, and the kept tree is the one the reply was
      played on exactly when the bound moved. */
  method Narrowed(player: Player, current: int, alpha: int, beta: int, best: Tree, tree: Tree)
    returns (alpha': int, beta': int, best': Tree)
    ensures if player == SELF then beta' == beta else alpha' == alpha
    ensures var bound := if player == SELF then alpha else beta;
      var bound' := if player == SELF then alpha' else beta';
      (bound' == bound || bound' == current) &&
      !Improves(player, bound, bound') && !Improves(player, current, bound') &&
      best' == (if bound' == bound then best else tree)
  {
    alpha', beta', best' := alpha, beta, best;
    if player == SELF {
      if current > alpha' {
        alpha' := current;
        best' := tree;
      }
    } else {
      if current < beta' {
        beta' := current;
        best' := tree;
      }
    }
  }

  /** The search's state: the two trees and the target tech last chosen.
      The engine's unit scores are fixed for the life of the object. */
  class BuildSearch {
    const gameTreeState: array<Tree>
    var targetTech: UnitType
    const scoring: Scoring

    ghost predicate Valid()
    {
      gameTreeState.Length == 2
    }

    /** The two trees as a value. */
    function Trees(): State
      requires Valid()
      reads this, gameTreeState
    {
      gameTreeState[..]
    }

    /** Both trees start as the null tree and the target as `None`. */
    constructor (sc: Scoring)
      ensures Valid() && fresh(gameTreeState)
      ensures Trees() == [NULL_TREE, NULL_TREE] && targetTech == NoneType && scoring == sc
    {
      gameTreeState := new Tree[2](_ => NULL_TREE);
      targetTech := NoneType;
      scoring := sc;
    }

    /** `evaluateGameState()`. */
    method EvaluateGameState() returns (eval: int)
      requires Valid()
      ensures eval == Evaluate(Trees(), scoring)
    {
      eval := 0;
      var e := EvaluateTree(scoring, gameTreeState[SELF], gameTreeState[ENEMY]);
      eval := eval + e;
    }

    /** `minimax(depth, player)`, in place on the two trees. */
    method Minimax(depth: int, player: Player) returns (best: Tree, score: int)
      requires Valid()
      modifies gameTreeState
      ensures Outcome(best, score, Trees()) == MinimaxSpec(depth, player, old(Trees()), scoring)
      decreases if depth > 0 then depth else 0, 2
    {
      var nextMoves := GenerateMoves(gameTreeState[player]);
      score := if player == SELF then INT_MIN else INT_MAX;
      best := NULL_TREE;
      if |nextMoves| <= 0 || depth <= 0 {
        score := EvaluateGameState();
      } else {
        best, score := MinimaxMoves(depth, player, nextMoves, best, score);
      }
    }

    /** The loop of `minimax` over the moves. */
    method MinimaxMoves(depth: int, player: Player, nextMoves: seq<UnitType>, best0: Tree, score0: int)
      returns (best: Tree, score: int)
      requires Valid() && depth > 0
      modifies gameTreeState
      ensures Outcome(best, score, Trees()) == MinimaxLoop(depth, player, nextMoves, Outcome(best0, score0, old(Trees())), scoring)
      decreases depth, 1
    {
      best, score := best0, score0;
      var i := 0;
      while i < |nextMoves|
        invariant 0 <= i <= |nextMoves|
        invariant MinimaxLoop(depth, player, nextMoves, Outcome(best0, score0, old(Trees())), scoring) ==
          MinimaxLoop(depth, player, nextMoves[i..], Outcome(best, score, Trees()), scoring)
      {
        MinimaxLoopUnfold(depth, player, nextMoves, i, Outcome(best, score, Trees()), scoring);
        best, score := MinimaxPass(depth, player, nextMoves[i], best, score);
        i := i + 1;
      }
    }

    /** One pass of the loop of `minimax`: play the move, search the reply,
        keep the tree on a strict improvement, take the move back. */
    method MinimaxPass(depth: int, player: Player, move: UnitType, best: Tree, score: int)
      returns (best': Tree, score': int)
      requires Valid() && depth > 0
      modifies gameTreeState
      ensures Outcome(best', score', Trees()) == MinimaxStep(depth, player, move, Outcome(best, score, old(Trees())), scoring)
      decreases depth, 0
    {
      var played, _ := SetBuildingNodeObtained(move, gameTreeState[player], true, scoring.isBuilding);
      gameTreeState[player] := played;
      var _, current := Minimax(depth - 1, Opponent(player));
      best', score' := KeptIfBetter(player, current, score, best, gameTreeState[player]);
      var undone, _ := SetBuildingNodeObtained(move, gameTreeState[player], false, scoring.isBuilding);
      gameTreeState[player] := undone;
    }

    /** `minimaxAlphaBeta(depth, player, alpha, beta)`, in place on the two
        trees. */
    method MinimaxAlphaBeta(depth: int, player: Player, alpha: int, beta: int) returns (best: Tree, score: int)
      requires Valid()
      modifies gameTreeState
      ensures Outcome(best, score, Trees()) == AlphaBetaSpec(depth, player, alpha, beta, old(Trees()), scoring)
      decreases if depth > 0 then depth else 0, 2
    {
      var nextMoves := GenerateMoves(gameTreeState[player]);
      best := NULL_TREE;
      if |nextMoves| <= 0 || depth <= 0 {
        score := EvaluateGameState();
      } else {
        best, score := AlphaBetaMoves(depth, player, nextMoves, alpha, beta, best);
      }
    }

    /** The loop of `minimaxAlphaBeta` over the moves, with its cut-off. */
    method AlphaBetaMoves(depth: int, player: Player, nextMoves: seq<UnitType>, alpha: int, beta: int, best0: Tree)
      returns (best: Tree, score: int)
      requires Valid() && depth > 0
      modifies gameTreeState
      ensures Outcome(best, score, Trees()) ==
        AlphaBetaLoop(depth, player, nextMoves, Window(alpha, beta, best0, old(Trees())), scoring)
      decreases depth, 1
    {
      best := best0;
      var a, b := alpha, beta;
      var i := 0;
      while i < |nextMoves|
        invariant 0 <= i <= |nextMoves|
        invariant AlphaBetaLoop(depth, player, nextMoves, Window(alpha, beta, best0, old(Trees())), scoring) ==
          AlphaBetaLoop(depth, player, nextMoves[i..], Window(a, b, best, Trees()), scoring)
      {
        AlphaBetaLoopUnfold(depth, player, nextMoves, i, Window(a, b, best, Trees()), scoring);
        a, b, best := AlphaBetaPass(depth, player, nextMoves[i], a, b, best);
        if a >= b {
          score := if player == SELF then a else b;
          return;
        }
        i := i + 1;
      }
      score := if player == SELF then a else b;
    }

    /** One pass of the loop of `minimaxAlphaBeta`: play the move, search
        the reply within the window, narrow the mover's bound and keep the
        tree on a strict improvement, take the move back. */
    method AlphaBetaPass(depth: int, player: Player, move: UnitType, alpha: int, beta: int, best: Tree)
      returns (alpha': int, beta': int, best': Tree)
      requires Valid() && depth > 0
      modifies gameTreeState
      ensures Window(alpha', beta', best', Trees()) ==
        AlphaBetaStep(depth, player, move, Window(alpha, beta, best, old(Trees())), scoring)
      decreases depth, 0
    {
      var played, _ := SetBuildingNodeObtained(move, gameTreeState[player], true, scoring.isBuilding);
      gameTreeState[player] := played;
      var _, current := MinimaxAlphaBeta(depth - 1, Opponent(player), alpha, beta);
      alpha', beta', best' := Narrowed(player, current, alpha, beta, best, gameTreeState[player]);
      var undone, _ := SetBuildingNodeObtained(move, gameTreeState[player], false, scoring.isBuilding);
      gameTreeState[player] := undone;
    }

    /** `minimaxNextBuilding(depth)`: the pruned search from the root with
        the full 32-bit window, then the first difference between its best
        tree and the first player's tree as the search left it. */
    method MinimaxNextBuilding(depth: int) returns (r: Result<UnitType>)
      requires Valid()
      modifies gameTreeState
      ensures r == NextBuilding(depth, old(Trees()), scoring)
      ensures Trees() == AlphaBetaSpec(depth, SELF, INT_MIN, INT_MAX, old(Trees()), scoring).after
    {
      var result, _ := MinimaxAlphaBeta(depth, SELF, INT_MIN, INT_MAX);
      r := FirstDifference(result, gameTreeState[SELF]);
    }

    /** `updateTargetTech()`: the target becomes the next building at the
        default depth; when the lookup throws, the target is left as it was
        and the failure is handed back. */
    method UpdateTargetTech() returns (r: Result<UnitType>)
      requires Valid()
      modifies this, gameTreeState
      ensures r == NextBuilding(DEFAULT_DEPTH, old(Trees()), scoring)
      ensures (Trees(), targetTech) == Retargeted(old(Trees()), old(targetTech), scoring)
    {
      r := MinimaxNextBuilding(DEFAULT_DEPTH);
      if r.Ok? {
        targetTech := r.value;
      }
    }

    /** `updateTechTree(techUnits, player)`: record the reported types in the
        player's tree, then choose the target again. The types are the map's
        keys, listed in `order`, the map's iteration order. */
    method UpdateTechTree(techUnits: map<UnitType, int>, order: seq<UnitType>, player: Player, race: Race)
      returns (r: Result<UnitType>)
      requires Valid()
      requires Enumerates(order, techUnits)
      modifies this, gameTreeState
      ensures var st := Recorded(old(Trees()), order, player, race, scoring);
        r == NextBuilding(DEFAULT_DEPTH, st, scoring) &&
        (Trees(), targetTech) == Retargeted(st, old(targetTech), scoring)
    {
      RecordTechUnits(order, player, race);
      r := UpdateTargetTech();
    }

    /** The first part of `updateTechTree`: start the player's tree from its
        race's template (`initTree`) if it is still the null tree, then, for
        each type, flag its prerequisites and play it. The other tree is
        left alone. */
    method RecordTechUnits(order: seq<UnitType>, player: Player, race: Race)
      requires Valid()
      modifies gameTreeState
      ensures Trees() == Recorded(old(Trees()), order, player, race, scoring)
    {
      var start := Initialised(gameTreeState[player], race);
      var played := RecordAll(order, start, scoring);
      gameTreeState[player] := played;
    }

    /** `prereqObtained(type)`: is the parent of the first node of the type
        below the root of the first player's tree obtained?  The source
        dereferences the parent unchecked, so the type must be there. */
    method PrereqObtained(k: UnitType) returns (r: bool)
      requires Valid() && FindNodeBelowRoot(k, Trees()[SELF], false).Some?
      ensures var q := FindNodeBelowRoot(k, Trees()[SELF], false).value;
        ValidPath(Trees()[SELF], q[..|q| - 1]) && r == At(Trees()[SELF], q[..|q| - 1]).obtained
    {
      var t := gameTreeState[SELF];
      var parent := ImmediateParent(k, t, false).value;
      ghost var q := FindNodeBelowRoot(k, t, false).value;
      assert q[..|q| - 1] == parent;
      r := At(t, parent).obtained;
    }

    /** `getParentType(type)`: the type of that parent. */
    method GetParentType(k: UnitType) returns (r: UnitType)
      requires Valid() && FindNodeBelowRoot(k, Trees()[SELF], false).Some?
      ensures var q := FindNodeBelowRoot(k, Trees()[SELF], false).value;
        ValidPath(Trees()[SELF], q[..|q| - 1]) && r == At(Trees()[SELF], q[..|q| - 1]).kind
    {
      var t := gameTreeState[SELF];
      var parent := ImmediateParent(k, t, false).value;
      ghost var q := FindNodeBelowRoot(k, t, false).value;
      assert q[..|q| - 1] == parent;
      r := At(t, parent).kind;
    }

    /** `getTargetTech()`. */
    method GetTargetTech() returns (r: UnitType)
      ensures r == targetTech
    {
      r := targetTech;
    }

    /** `getGameTree(player)`. */
    method GetGameTree(player: Player) returns (r: Tree)
      requires Valid()
      ensures r == Trees()[player]
    {
      r := gameTreeState[player];
    }
  }
}
