/**
 * What `minimaxNextBuilding` answers: playing a unique move changes its own
 * node first, in pre-order, so the first difference between the chosen
 * tree and the tree searched from names the move the search chose.
 */
module NextBuildingTheory {
  import opened Wrappers
  import opened UnitTypes
  import opened TreeBasics
  import opened TreeSearch
  import opened TreeUpdate
  import opened TreeQueries
  import opened TechTemplates
  import opened Evaluation
  import opened BuildMinimax
  import opened MinimaxTheory

  /** A position never comes before one of its ancestors. */
  lemma {:induction false} PrefixNotAfter(p: Path, q: Path)
    requires IsPrefix(p, q)
    ensures !PreLess(q, p)
    decreases |p|
  {
    if p != [] {
      PrefixCons(p, q);
      PrefixNotAfter(p[1..], q[1..]);
    }
  }

  lemma {:induction false} SkeletonSymmetric(a: Tree, b: Tree)
    requires SameSkeleton(a, b)
    ensures SameSkeleton(b, a)
    decreases a
  {
    forall i | 0 <= i < |a.subs| { SkeletonSymmetric(a.subs[i], b.subs[i]); }
  }

  /** Playing a unique, unobtained move makes its own node the first, in
      pre-order, whose flag differs from the tree it was played on: the
      first difference names the move. */
  lemma PlayedMoveIsFirstDifference(k: UnitType, t: Tree, p: Path, isBuilding: UnitType -> bool)
    requires FindNode(k, t, true) == Some(p) && At(t, p).unique && !At(t, p).obtained && NoneOnlyAtRoot(t)
    ensures FirstDifference(BuildingObtained(k, t, true, isBuilding).0, t) == Ok(k)
  {
    var a := At(t, p);
    var n := a.(obtained := true);
    var c := CascadeChildren(n, true, isBuilding);
    var t1 := ReplaceAt(t, p, c);
    BuildingObtainedUnique(k, t, true, isBuilding, p);
    FlagSkeleton(a, true);
    CascadeSkeleton(n, true, isBuilding);
    SkeletonTransitive(a, n, c);
    ReplaceAtSkeleton(t, p, c);
    SkeletonSymmetric(t, t1);
    ReplaceAtHere(t, p, c);
    forall q | ValidPath(t1, q) && q != [] ensures At(t1, q).kind != NoneType {
      SkeletonPaths(t, t1, q);
    }
    forall q' | PreLess(q', p) ensures !Differs(t1, t, q') {
      if Differs(t1, t, q') {
        if IsPrefix(q', p) {
          PreLessIrreflexive(p);
          ReplaceAtAncestor(t, p, c, q');
        } else {
          if IsPrefix(p, q') { PrefixNotAfter(p, q'); }
          ReplaceAtElsewhere(t, p, c, q');
        }
      }
    }
    assert IsFirstDiff(t1, t, p);
    FirstDifferenceSpec(t1, t);
  }

  /** The search for a move's type finds a unique node still unobtained. */
  predicate FreshUnique(m: UnitType, t: Tree)
  {
    FindNode(m, t, true).Some? && At(t, FindNode(m, t, true).value).unique && !At(t, FindNode(m, t, true).value).obtained
  }

  /** `minimaxNextBuilding` names the move the search chose, when every
      move is taken back exactly: the next building is the first move, in
      the order the moves are tried, whose reply scores the search's value,
      provided the search finds that move as a unique node still
      unobtained, and the plain score lies above the bottom of the 32-bit
      range and not above its top. */
  lemma NextBuildingIsChosenMove(depth: int, st: State, sc: Scoring)
    requires depth > 0 && Moves(st[SELF]) != [] && Restoring(depth, SELF, st, sc) && NoneOnlyAtRoot(st[SELF])
    requires INT_MIN < MinimaxSpec(depth, SELF, st, sc).score <= INT_MAX
    ensures exists i ::
      FirstToReach(depth, SELF, st, Moves(st[SELF]), i, MinimaxSpec(depth, SELF, st, sc).score, sc) &&
      (FreshUnique(Moves(st[SELF])[i], st[SELF]) ==> NextBuilding(depth, st, sc) == Ok(Moves(st[SELF])[i]))
  {
    AlphaBetaMatchesMinimax(depth, st, sc);
    MinimaxChoosesBest(depth, SELF, st, sc);
    var moves := Moves(st[SELF]);
    var r := MinimaxSpec(depth, SELF, st, sc);
    var i :| FirstToReach(depth, SELF, st, moves, i, r.score, sc) && r.best == Play(st, SELF, moves[i], true, sc)[SELF];
    if FreshUnique(moves[i], st[SELF]) {
      PlayedMoveIsFirstDifference(moves[i], st[SELF], FindNode(moves[i], st[SELF], true).value, sc.isBuilding);
    }
  }

  // --------------------------------- the trees the bot holds keep None at the root

  /** Both trees have type `None` at their root only. */
  ghost predicate NoneAtRoots(st: State)
  {
    NoneOnlyAtRoot(st[SELF]) && NoneOnlyAtRoot(st[ENEMY])
  }

  /** Playing or taking back a move keeps `None` at the roots only. */
  lemma PlayKeepsNoneAtRoots(st: State, player: Player, m: UnitType, v: bool, sc: Scoring)
    requires NoneAtRoots(st)
    ensures NoneAtRoots(Play(st, player, m, v, sc))
  {
    BuildingObtainedNoneOnlyAtRoot(m, st[player], v, sc.isBuilding);
  }

  /** The recording loop of `updateTechTree` keeps `None` at the root only. */
  lemma {:induction false} RecordNoneOnlyAtRoot(units: seq<UnitType>, t: Tree, sc: Scoring)
    requires NoneOnlyAtRoot(t)
    ensures NoneOnlyAtRoot(Record(units, t, sc))
    decreases |units|
  {
    if units != [] {
      var withPrereqs := SetAll(FindPrereqNodes(units[0], t, []), t, true).0;
      SetAllNoneOnlyAtRoot(FindPrereqNodes(units[0], t, []), t, true);
      BuildingObtainedNoneOnlyAtRoot(units[0], withPrereqs, true, sc.isBuilding);
      RecordNoneOnlyAtRoot(units[1..], BuildingObtained(units[0], withPrereqs, true, sc.isBuilding).0, sc);
    }
  }

  /** After `updateTechTree` records the reported types, the player's tree
      has type `None` at its root only, whether it was still the null tree
      (and so takes the race's template) or had that property already. */
  lemma RecordedNoneOnlyAtRoot(st: State, order: seq<UnitType>, player: Player, race: Race, sc: Scoring)
    requires st[player].kind == UnknownType || NoneOnlyAtRoot(st[player])
    ensures NoneOnlyAtRoot(Recorded(st, order, player, race, sc)[player])
  {
    if SameType(st[player], NULL_TREE) {
      BaseTreeNoneOnlyAtRoot(race);
    }
    RecordNoneOnlyAtRoot(order, Initialised(st[player], race), sc);
  }

  /** The plain search leaves both trees with `None` at their roots only,
      whether or not its moves are taken back exactly. */
  lemma {:induction false} MinimaxKeepsNoneAtRoots(depth: int, player: Player, st: State, sc: Scoring)
    requires NoneAtRoots(st)
    ensures NoneAtRoots(MinimaxSpec(depth, player, st, sc).after)
    decreases if depth > 0 then depth else 0, 1
  {
    var moves := Moves(st[player]);
    if |moves| > 0 && depth > 0 {
      MinimaxLoopKeepsNoneAtRoots(depth, player, moves, Outcome(NULL_TREE, Worst(player), st), sc);
    }
  }

  lemma {:induction false} MinimaxLoopKeepsNoneAtRoots(depth: int, player: Player, moves: seq<UnitType>,
                                                       acc: Outcome, sc: Scoring)
    requires depth > 0 && NoneAtRoots(acc.after)
    ensures NoneAtRoots(MinimaxLoop(depth, player, moves, acc, sc).after)
    decreases depth, 0, |moves|
  {
    if moves != [] {
      var played := Play(acc.after, player, moves[0], true, sc);
      PlayKeepsNoneAtRoots(acc.after, player, moves[0], true, sc);
      MinimaxKeepsNoneAtRoots(depth - 1, Opponent(player), played, sc);
      var child := MinimaxSpec(depth - 1, Opponent(player), played, sc);
      PlayKeepsNoneAtRoots(child.after, player, moves[0], false, sc);
      MinimaxLoopKeepsNoneAtRoots(depth, player, moves[1..], MinimaxStep(depth, player, moves[0], acc, sc), sc);
    }
  }

  /** So does the pruned search. */
  lemma {:induction false} AlphaBetaKeepsNoneAtRoots(depth: int, player: Player, alpha: int, beta: int, st: State,
                                                     sc: Scoring)
    requires NoneAtRoots(st)
    ensures NoneAtRoots(AlphaBetaSpec(depth, player, alpha, beta, st, sc).after)
    decreases if depth > 0 then depth else 0, 1
  {
    var moves := Moves(st[player]);
    if |moves| > 0 && depth > 0 {
      AlphaBetaLoopKeepsNoneAtRoots(depth, player, moves, Window(alpha, beta, NULL_TREE, st), sc);
    }
  }

  lemma {:induction false} AlphaBetaLoopKeepsNoneAtRoots(depth: int, player: Player, moves: seq<UnitType>,
                                                         w: Window, sc: Scoring)
    requires depth > 0 && NoneAtRoots(w.trees)
    ensures NoneAtRoots(AlphaBetaLoop(depth, player, moves, w, sc).after)
    decreases depth, 0, |moves|
  {
    if moves != [] {
      var played := Play(w.trees, player, moves[0], true, sc);
      PlayKeepsNoneAtRoots(w.trees, player, moves[0], true, sc);
      AlphaBetaKeepsNoneAtRoots(depth - 1, Opponent(player), w.alpha, w.beta, played, sc);
      var child := AlphaBetaSpec(depth - 1, Opponent(player), w.alpha, w.beta, played, sc);
      PlayKeepsNoneAtRoots(child.after, player, moves[0], false, sc);
      var w' := AlphaBetaStep(depth, player, moves[0], w, sc);
      if w'.alpha < w'.beta {
        AlphaBetaLoopKeepsNoneAtRoots(depth, player, moves[1..], w', sc);
      }
    }
  }
}
