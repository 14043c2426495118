/**
 * What the two build searches compute.
 *
 * Both searches play a move, search the reply and take the move back with
 * `setBuildingNodeObtained(move, tree, false)`. Taking a move back restores
 * the tree for a unique node that occurs once (see
 * `TreeUpdate.ApplyUndoRestores`) but not always (see `UndoLosesDuplicate`
 * and `UniqueDuplicateUndoDoesNotRestore`). What the plain search returns is
 * stated first over the trees each pass actually starts from
 * (`MinimaxChoosesBestReached`). The other results assume that every move
 * the search tries is taken back exactly (`Restoring`). Under that
 * assumption the searches leave both trees as they found them, the plain
 * search returns the best reply score and the tree of a move achieving it,
 * and the pruned search agrees with the plain one inside its window, and
 * entirely at the root.
 */
module MinimaxTheory {
  import opened Wrappers
  import opened UnitTypes
  import opened TreeBasics
  import opened TreeSearch
  import opened TreeUpdate
  import opened Evaluation
  import opened BuildMinimax

  /** Every move tried from here, down to the search depth, is taken back
      exactly. */
  ghost predicate Restoring(depth: int, player: Player, st: State, sc: Scoring)
    decreases if depth > 0 then depth else 0
  {
    depth > 0 ==> forall m :: m in Moves(st[player]) ==>
      Play(Play(st, player, m, true, sc), player, m, false, sc) == st &&
      Restoring(depth - 1, Opponent(player), Play(st, player, m, true, sc), sc)
  }

  /** The score the plain search gives `player`'s move `m`. */
  function Reply(depth: int, player: Player, st: State, m: UnitType, sc: Scoring): int
    requires depth > 0
  {
    MinimaxSpec(depth - 1, Opponent(player), Play(st, player, m, true, sc), sc).score
  }

  /** The plain search's starting bound. */
  function Worst(player: Player): int
  {
    if player == SELF then INT_MIN else INT_MAX
  }

  /** Taking a move back need not restore the tree: with two unobtained
      copies of a non-unique building under an obtained root, playing one
      erases the other copy, and taking the move back leaves a single
      unobtained copy. */
  lemma UndoLosesDuplicate(isBuilding: UnitType -> bool)
    ensures var s := Node(ProtossStargate, false, false, []);
      var t := Node(NoneType, true, true, [s, s]);
      var played := BuildingObtained(ProtossStargate, t, true, isBuilding);
      played == (Node(NoneType, true, true, [s.(obtained := true)]), true) &&
      BuildingObtained(ProtossStargate, played.0, false, isBuilding) == (Node(NoneType, true, true, [s]), true)
  {
    var s := Node(ProtossStargate, false, false, []);
    PlayErasesCopy(s, isBuilding);
    UndoKeepsOneCopy(s, isBuilding);
  }

  /** An unobtained copy of the non-unique Stargate, a leaf. */
  predicate SpareCopy(s: Tree)
  {
    s.kind == ProtossStargate && !s.obtained && !s.unique && s.subs == []
  }

  /** Playing the Stargate flags the first copy and erases the second. */
  lemma PlayErasesCopy(s: Tree, isBuilding: UnitType -> bool)
    requires SpareCopy(s)
    ensures BuildingObtained(ProtossStargate, Node(NoneType, true, true, [s, s]), true, isBuilding) ==
      (Node(NoneType, true, true, [s.(obtained := true)]), true)
  {
    var s' := s.(obtained := true);
    var t := Node(NoneType, true, true, [s, s]);
    var t2 := Node(NoneType, true, true, [s']);
    PlayFindsFirstCopy(s);
    FirstChild(t, s');
    PlayFlagsFirstCopy(s);
    SecondCopyErased(s);
    FirstChild(t2, s');
    assert [s'][0 := s'] == [s'];
    CascadeLeaf(s', true, isBuilding);
    BuildingObtainedAt(ProtossStargate, t, true, isBuilding, [0], t2);
  }

  lemma PlayFlagsFirstCopy(s: Tree)
    requires SpareCopy(s)
    ensures ValidPath(Node(NoneType, true, true, [s, s]), [0])
    ensures SetFlag(Node(NoneType, true, true, [s, s]), [0], true) == Node(NoneType, true, true, [s.(obtained := true), s])
  {
    var s' := s.(obtained := true);
    FirstChild(Node(NoneType, true, true, [s, s]), s');
    assert [s, s][0 := s'] == [s', s];
  }

  lemma FirstChild(t: Tree, x: Tree)
    requires |t.subs| >= 1
    ensures ValidPath(t, [0]) && At(t, [0]) == t.subs[0] && ReplaceAt(t, [0], x) == t.(subs := t.subs[0 := x])
  {
    assert [0][1..] == [];
  }

  lemma CascadeLeaf(n: Tree, v: bool, isBuilding: UnitType -> bool)
    requires n.subs == []
    ensures CascadeChildren(n, v, isBuilding) == n
  {
  }

  lemma PlayFindsFirstCopy(s: Tree)
    requires SpareCopy(s)
    ensures FindNode(ProtossStargate, Node(NoneType, true, true, [s, s]), true) == Some([0])
  {
    var t := Node(NoneType, true, true, [s, s]);
    assert FindFirst(ByType(ProtossStargate), s, true) == Some([]);
    assert [0] + [] == [0];
    assert FindAmong(ByType(ProtossStargate), t, true, 0) == Some([0]);
  }

  lemma SecondCopyErased(s: Tree)
    requires SpareCopy(s)
    ensures var s' := s.(obtained := true);
      Removed(ByTypeFlag(ProtossStargate, false), Node(NoneType, true, true, [s', s])) ==
        (Node(NoneType, true, true, [s']), true)
  {
    var s' := s.(obtained := true);
    var t1 := Node(NoneType, true, true, [s', s]);
    var gone := Below(ByTypeFlag(ProtossStargate, false));
    assert [1] + [] == [1];
    assert FindFirst(ByTypeFlag(ProtossStargate, false), s', false) == None;
    assert FindFirst(ByTypeFlag(ProtossStargate, false), s, false) == Some([]);
    assert FindAmong(gone, t1, false, 1) == Some([1]);
    assert FindFirst(gone, t1, false) == Some([1]);
    assert RemoveAt(t1, [1]) == Node(NoneType, true, true, [s']);
  }

  /** Taking the move back unflags the one copy left; there is no other
      copy to erase. */
  lemma UndoKeepsOneCopy(s: Tree, isBuilding: UnitType -> bool)
    requires SpareCopy(s)
    ensures BuildingObtained(ProtossStargate, Node(NoneType, true, true, [s.(obtained := true)]), false, isBuilding) ==
      (Node(NoneType, true, true, [s]), true)
  {
    var s' := s.(obtained := true);
    var t2 := Node(NoneType, true, true, [s']);
    var t3 := Node(NoneType, true, true, [s]);
    UndoFindsCopy(s);
    FirstChild(t2, s);
    UndoUnflagsCopy(s);
    NothingLeftToErase(s);
    FirstChild(t3, s);
    assert [s][0 := s] == [s];
    CascadeLeaf(s, false, isBuilding);
    BuildingObtainedAt(ProtossStargate, t2, false, isBuilding, [0], t3);
  }

  /** `setBuildingNodeObtained` once its search has found the node at `p`
      and the copy flagged the other way is erased (or not). */
  lemma BuildingObtainedAt(k: UnitType, t: Tree, v: bool, isBuilding: UnitType -> bool, p: Path, t2: Tree)
    requires FindNode(k, t, v) == Some(p) && ValidPath(t, p)
    requires t2 == (if At(t, p).unique then SetFlag(t, p, v) else Removed(ByTypeFlag(k, !v), SetFlag(t, p, v)).0)
    ensures ValidPath(t2, p)
    ensures BuildingObtained(k, t, v, isBuilding) == (ReplaceAt(t2, p, CascadeChildren(At(t2, p), v, isBuilding)), true)
  {
    FoundNodeSurvives(k, t, v, p);
  }

  lemma UndoUnflagsCopy(s: Tree)
    requires SpareCopy(s)
    ensures ValidPath(Node(NoneType, true, true, [s.(obtained := true)]), [0])
    ensures SetFlag(Node(NoneType, true, true, [s.(obtained := true)]), [0], false) == Node(NoneType, true, true, [s])
  {
    var s' := s.(obtained := true);
    var t2 := Node(NoneType, true, true, [s']);
    FirstChild(t2, s);
    assert s'.(obtained := false) == s && [s'][0 := s] == [s];
  }

  lemma UndoFindsCopy(s: Tree)
    requires SpareCopy(s)
    ensures FindNode(ProtossStargate, Node(NoneType, true, true, [s.(obtained := true)]), false) == Some([0])
  {
    var s' := s.(obtained := true);
    var t2 := Node(NoneType, true, true, [s']);
    assert [0] + [] == [0];
    assert FindFirst(ByType(ProtossStargate), s', false) == Some([]);
    assert FindAmong(ByType(ProtossStargate), t2, false, 0) == Some([0]);
  }

  lemma NothingLeftToErase(s: Tree)
    requires SpareCopy(s)
    ensures var t3 := Node(NoneType, true, true, [s]);
      Removed(ByTypeFlag(ProtossStargate, true), t3) == (t3, false)
  {
    var t3 := Node(NoneType, true, true, [s]);
    var kept := Below(ByTypeFlag(ProtossStargate, true));
    assert FindFirst(ByTypeFlag(ProtossStargate, true), s, false) == None;
    assert FindAmong(kept, t3, false, 1) == None;
    assert FindAmong(kept, t3, false, 0) == None;
    assert FindFirst(kept, t3, false) == None;
  }

  /** Taking a move back need not restore the tree even for a unique
      building, when its type also occurs out of sight. This is the Terran
      shape: once the Factory is obtained, the Armory is a move, and an
      unobtained copy of it sits below the unobtained Starport, earlier in
      pre-order. Playing the move searches only below obtained nodes and
      flags the visible copy; taking it back searches every node, finds
      the hidden copy first and leaves the played copy obtained. */
  lemma UniqueDuplicateUndoDoesNotRestore(isBuilding: UnitType -> bool)
    ensures var a := Node(TerranArmory, false, true, []);
      var t := Node(NoneType, true, true, [Node(TerranStarport, false, true, [a]), a]);
      var played := BuildingObtained(TerranArmory, t, true, isBuilding);
      played == (Node(NoneType, true, true, [Node(TerranStarport, false, true, [a]), a.(obtained := true)]), true) &&
      BuildingObtained(TerranArmory, played.0, false, isBuilding) == played &&
      played.0 != t
  {
    var a := Node(TerranArmory, false, true, []);
    var a' := a.(obtained := true);
    var s := Node(TerranStarport, false, true, [a]);
    var t := Node(NoneType, true, true, [s, a]);
    var t1 := Node(NoneType, true, true, [s, a']);
    var g := ByType(TerranArmory);
    assert FindFirst(g, s, true) == None;
    assert FindFirst(g, a, true) == Some([]);
    assert [1] + [] == [1];
    assert FindAmong(g, t, true, 1) == Some([1]);
    assert FindAmong(g, t, true, 0) == Some([1]);
    assert FindFirst(g, t, true) == Some([1]);
    assert FindNode(TerranArmory, t, true) == Some([1]);
    assert [1][1..] == [];
    CascadeLeaf(a', true, isBuilding);
    assert [s, a][1 := a'] == [s, a'];
    assert ReplaceAt(t, [1], a') == t1;
    BuildingObtainedUnique(TerranArmory, t, true, isBuilding, [1]);
    assert FindFirst(g, a, false) == Some([]);
    assert [0] + [] == [0];
    assert FindAmong(g, s, false, 0) == Some([0]);
    assert FindFirst(g, s, false) == Some([0]);
    assert [0] + [0] == [0, 0];
    assert FindAmong(g, t1, false, 0) == Some([0, 0]);
    assert FindFirst(g, t1, false) == Some([0, 0]);
    assert FindNode(TerranArmory, t1, false) == Some([0, 0]);
    assert [0, 0][1..] == [0] && [0][1..] == [];
    CascadeLeaf(a, false, isBuilding);
    assert [a][0 := a] == [a] && [s, a'][0 := s] == [s, a'];
    assert ReplaceAt(s, [0], a) == s;
    assert ReplaceAt(t1, [0, 0], a) == t1;
    BuildingObtainedUnique(TerranArmory, t1, false, isBuilding, [0, 0]);
    assert t1.subs[1] != t.subs[1];
  }

  /** The moves after the first of a list of legal moves are legal. */
  lemma LegalTail(moves: seq<UnitType>, legal: seq<UnitType>)
    requires moves != [] && forall m :: m in moves ==> m in legal
    ensures moves[0] in legal && forall m :: m in moves[1..] ==> m in legal
  {
    assert moves[0] in moves;
    forall m | m in moves[1..] ensures m in legal { assert m in moves; }
  }

  // ------------------------------------------------------- trees restored

  /** A step of the plain loop keeps a reply that improves on the bound,
      with the tree of the move played, and gives the trees back. */
  lemma {:induction false} MinimaxStepFacts(depth: int, player: Player, st: State, m: UnitType, acc: Outcome, sc: Scoring)
    requires depth > 0 && Restoring(depth, player, st, sc) && m in Moves(st[player]) && acc.after == st
    ensures var r := Reply(depth, player, st, m, sc);
      MinimaxStep(depth, player, m, acc, sc) ==
        Outcome(if Improves(player, r, acc.score) then Play(st, player, m, true, sc)[player] else acc.best,
                if Improves(player, r, acc.score) then r else acc.score, st)
    decreases depth, 0, 0
  {
    MinimaxRestores(depth - 1, Opponent(player), Play(st, player, m, true, sc), sc);
  }

  /** A step of the pruned loop gives the trees back. */
  lemma {:induction false} AlphaBetaStepRestores(depth: int, player: Player, st: State, m: UnitType, w: Window, sc: Scoring)
    requires depth > 0 && Restoring(depth, player, st, sc) && m in Moves(st[player]) && w.trees == st
    ensures AlphaBetaStep(depth, player, m, w, sc).trees == st
    decreases depth, 0, 0
  {
    AlphaBetaRestores(depth - 1, Opponent(player), w.alpha, w.beta, Play(st, player, m, true, sc), sc);
  }

  /** The plain search leaves both trees as it found them. */
  lemma {:induction false} MinimaxRestores(depth: int, player: Player, st: State, sc: Scoring)
    requires Restoring(depth, player, st, sc)
    ensures MinimaxSpec(depth, player, st, sc).after == st
    decreases if depth > 0 then depth else 0, 1
  {
    var moves := Moves(st[player]);
    if |moves| > 0 && depth > 0 {
      MinimaxLoopRestores(depth, player, st, moves, Outcome(NULL_TREE, Worst(player), st), sc);
    }
  }

  lemma {:induction false} MinimaxLoopRestores(depth: int, player: Player, st: State, moves: seq<UnitType>,
                                               acc: Outcome, sc: Scoring)
    requires depth > 0 && Restoring(depth, player, st, sc) && acc.after == st
    requires forall m :: m in moves ==> m in Moves(st[player])
    ensures MinimaxLoop(depth, player, moves, acc, sc).after == st
    decreases depth, 0, |moves|
  {
    if moves != [] {
      LegalTail(moves, Moves(st[player]));
      MinimaxStepFacts(depth, player, st, moves[0], acc, sc);
      MinimaxLoopRestores(depth, player, st, moves[1..], MinimaxStep(depth, player, moves[0], acc, sc), sc);
    }
  }

  /** The pruned search leaves both trees as it found them. */
  lemma {:induction false} AlphaBetaRestores(depth: int, player: Player, alpha: int, beta: int, st: State, sc: Scoring)
    requires Restoring(depth, player, st, sc)
    ensures AlphaBetaSpec(depth, player, alpha, beta, st, sc).after == st
    decreases if depth > 0 then depth else 0, 1
  {
    var moves := Moves(st[player]);
    if |moves| > 0 && depth > 0 {
      AlphaBetaLoopRestores(depth, player, st, moves, Window(alpha, beta, NULL_TREE, st), sc);
    }
  }

  lemma {:induction false} AlphaBetaLoopRestores(depth: int, player: Player, st: State, moves: seq<UnitType>,
                                                 w: Window, sc: Scoring)
    requires depth > 0 && Restoring(depth, player, st, sc) && w.trees == st
    requires forall m :: m in moves ==> m in Moves(st[player])
    ensures AlphaBetaLoop(depth, player, moves, w, sc).after == st
    decreases depth, 0, |moves|
  {
    if moves != [] {
      LegalTail(moves, Moves(st[player]));
      AlphaBetaStepRestores(depth, player, st, moves[0], w, sc);
      var w' := AlphaBetaStep(depth, player, moves[0], w, sc);
      if w'.alpha < w'.beta {
        AlphaBetaLoopRestores(depth, player, st, moves[1..], w', sc);
      }
    }
  }

  // ------------------------------------------------------ minimax's choice

  /** Move `i` is the first of `moves` whose reply scores `score`: its
      reply scores `score` and every earlier reply scores strictly worse
      for `player`. */
  predicate FirstToReach(depth: int, player: Player, st: State, moves: seq<UnitType>, i: int, score: int, sc: Scoring)
    requires depth > 0
  {
    0 <= i < |moves| && Reply(depth, player, st, moves[i], sc) == score &&
    forall j :: 0 <= j < i ==> Improves(player, score, Reply(depth, player, st, moves[j], sc))
  }

  /** The plain search's loop ends with a score no reply beats, and either
      keeps what it started with or takes the score and tree of the first
      move whose reply reaches that score, which then beats the start. */
  lemma {:induction false} MinimaxLoopBest(depth: int, player: Player, st: State, moves: seq<UnitType>,
                                           acc: Outcome, sc: Scoring)
    requires depth > 0 && Restoring(depth, player, st, sc) && acc.after == st
    requires forall m :: m in moves ==> m in Moves(st[player])
    ensures var r := MinimaxLoop(depth, player, moves, acc, sc);
      !Improves(player, acc.score, r.score) &&
      (forall m :: m in moves ==> !Improves(player, Reply(depth, player, st, m, sc), r.score)) &&
      ((r.score == acc.score && r.best == acc.best) ||
       exists i :: FirstToReach(depth, player, st, moves, i, r.score, sc) && Improves(player, r.score, acc.score) &&
         r.best == Play(st, player, moves[i], true, sc)[player])
    decreases |moves|
  {
    if moves != [] {
      var m := moves[0];
      LegalTail(moves, Moves(st[player]));
      MinimaxStepFacts(depth, player, st, m, acc, sc);
      var next := MinimaxStep(depth, player, m, acc, sc);
      MinimaxLoopBest(depth, player, st, moves[1..], next, sc);
      var r := MinimaxLoop(depth, player, moves, acc, sc);
      assert r == MinimaxLoop(depth, player, moves[1..], next, sc);
      forall m' | m' in moves ensures !Improves(player, Reply(depth, player, st, m', sc), r.score) {
        if m' != m { assert m' in moves[1..]; }
      }
      if r.score == next.score && r.best == next.best {
        if next.score != acc.score || next.best != acc.best {
          assert FirstToReach(depth, player, st, moves, 0, r.score, sc);
        }
      } else {
        var k :| FirstToReach(depth, player, st, moves[1..], k, r.score, sc) && Improves(player, r.score, next.score) &&
          r.best == Play(st, player, moves[1..][k], true, sc)[player];
        forall j | 0 <= j < k + 1 ensures Improves(player, r.score, Reply(depth, player, st, moves[j], sc)) {
          if j > 0 { assert moves[j] == moves[1..][j - 1]; }
        }
        assert FirstToReach(depth, player, st, moves, k + 1, r.score, sc);
      }
    }
  }

  /** `minimax` with moves to try and depth left: no move's reply beats the
      returned score, and the returned score and tree are those of the
      first move whose reply reaches that score (the tree being that
      player's tree with the move played), unless no reply beats the
      starting bound, in which case the score is the bound and the tree is
      the null tree. */
  lemma MinimaxChoosesBest(depth: int, player: Player, st: State, sc: Scoring)
    requires depth > 0 && Moves(st[player]) != [] && Restoring(depth, player, st, sc)
    ensures var r := MinimaxSpec(depth, player, st, sc);
      r.after == st &&
      (forall m :: m in Moves(st[player]) ==> !Improves(player, Reply(depth, player, st, m, sc), r.score)) &&
      ((r.score == Worst(player) && r.best == NULL_TREE) ||
       exists i :: FirstToReach(depth, player, st, Moves(st[player]), i, r.score, sc) &&
         Improves(player, r.score, Worst(player)) &&
         r.best == Play(st, player, Moves(st[player])[i], true, sc)[player])
  {
    MinimaxRestores(depth, player, st, sc);
    MinimaxLoopBest(depth, player, st, Moves(st[player]), Outcome(NULL_TREE, Worst(player), st), sc);
  }

  // ------------------------------------- minimax's choice, without exact undo

  /** The outcomes the plain loop has reached before each of its moves: the
      first is the one it starts from, each next one is where the pass
      before left it, trees included, whether or not that pass gave the
      trees back exactly. */
  function Reached(depth: int, player: Player, moves: seq<UnitType>, acc: Outcome, sc: Scoring): (r: seq<Outcome>)
    requires depth > 0
    ensures |r| == |moves|
    decreases |moves|
  {
    if moves == [] then [] else [acc] + Reached(depth, player, moves[1..], MinimaxStep(depth, player, moves[0], acc, sc), sc)
  }

  /** The opponent's search after move `i` of the loop is played on the
      trees the loop has reached by then. */
  function ReplyAt(depth: int, player: Player, moves: seq<UnitType>, acc: Outcome, i: int, sc: Scoring): Outcome
    requires depth > 0 && 0 <= i < |moves|
  {
    MinimaxSpec(depth - 1, Opponent(player), Play(Reached(depth, player, moves, acc, sc)[i].after, player, moves[i], true, sc), sc)
  }

  /** Move `i` is the first of the loop's moves whose reply, searched on the
      trees reached, scores `score`. */
  predicate FirstReached(depth: int, player: Player, moves: seq<UnitType>, acc: Outcome, i: int, score: int, sc: Scoring)
    requires depth > 0
  {
    0 <= i < |moves| && ReplyAt(depth, player, moves, acc, i, sc).score == score &&
    forall j :: 0 <= j < i ==> Improves(player, score, ReplyAt(depth, player, moves, acc, j, sc).score)
  }

  /** Dropping the first move shifts the replies by one. */
  lemma ReplyAtShift(depth: int, player: Player, moves: seq<UnitType>, acc: Outcome, i: int, sc: Scoring)
    requires depth > 0 && 0 <= i && i + 1 < |moves|
    ensures ReplyAt(depth, player, moves, acc, i + 1, sc) ==
      ReplyAt(depth, player, moves[1..], MinimaxStep(depth, player, moves[0], acc, sc), i, sc)
  {
    assert moves[i + 1] == moves[1..][i];
  }

  /** The plain loop, on whatever trees the moves played before leave it:
      it ends with a score that no reply searched along the way beats, and
      either keeps what it started with or takes the score of the first
      move whose reply reaches that score, together with the mover's tree
      as that reply's search left it. */
  lemma {:induction false} MinimaxLoopBestReached(depth: int, player: Player, moves: seq<UnitType>, acc: Outcome,
                                                  sc: Scoring)
    requires depth > 0
    ensures var r := MinimaxLoop(depth, player, moves, acc, sc);
      !Improves(player, acc.score, r.score) &&
      (forall i :: 0 <= i < |moves| ==> !Improves(player, ReplyAt(depth, player, moves, acc, i, sc).score, r.score)) &&
      ((r.score == acc.score && r.best == acc.best) ||
       exists i :: FirstReached(depth, player, moves, acc, i, r.score, sc) && Improves(player, r.score, acc.score) &&
         r.best == ReplyAt(depth, player, moves, acc, i, sc).after[player])
    decreases |moves|
  {
    if moves != [] {
      var next := MinimaxStep(depth, player, moves[0], acc, sc);
      MinimaxLoopBestReached(depth, player, moves[1..], next, sc);
      var r := MinimaxLoop(depth, player, moves, acc, sc);
      assert r == MinimaxLoop(depth, player, moves[1..], next, sc);
      forall i | 0 < i < |moves|
        ensures ReplyAt(depth, player, moves, acc, i, sc) == ReplyAt(depth, player, moves[1..], next, i - 1, sc)
      {
        ReplyAtShift(depth, player, moves, acc, i - 1, sc);
      }
      if r.score == next.score && r.best == next.best {
        if next.score != acc.score || next.best != acc.best {
          assert FirstReached(depth, player, moves, acc, 0, r.score, sc);
        }
      } else {
        var k :| FirstReached(depth, player, moves[1..], next, k, r.score, sc) && Improves(player, r.score, next.score) &&
          r.best == ReplyAt(depth, player, moves[1..], next, k, sc).after[player];
        assert FirstReached(depth, player, moves, acc, k + 1, r.score, sc);
      }
    }
  }

  /** `minimax` with moves to try and depth left, with no assumption on how
      taking a move back leaves the trees: no reply searched along the way
      beats the returned score, and the score and tree returned are those
      of the first move whose reply reaches that score, unless no reply
      beats the starting bound, when they are the bound and the null tree. */
  lemma MinimaxChoosesBestReached(depth: int, player: Player, st: State, sc: Scoring)
    requires depth > 0 && Moves(st[player]) != []
    ensures var moves, start := Moves(st[player]), Outcome(NULL_TREE, Worst(player), st);
      var r := MinimaxSpec(depth, player, st, sc);
      (forall i :: 0 <= i < |moves| ==> !Improves(player, ReplyAt(depth, player, moves, start, i, sc).score, r.score)) &&
      ((r.score == Worst(player) && r.best == NULL_TREE) ||
       exists i :: FirstReached(depth, player, moves, start, i, r.score, sc) && Improves(player, r.score, Worst(player)) &&
         r.best == ReplyAt(depth, player, moves, start, i, sc).after[player])
  {
    MinimaxLoopBestReached(depth, player, Moves(st[player]), Outcome(NULL_TREE, Worst(player), st), sc);
  }

  /** When every move is taken back exactly, every pass of the loop starts
      from the trees the loop started from. */
  lemma {:induction false} ReachedUnderRestoring(depth: int, player: Player, st: State, moves: seq<UnitType>,
                                                 acc: Outcome, sc: Scoring)
    requires depth > 0 && Restoring(depth, player, st, sc) && acc.after == st
    requires forall m :: m in moves ==> m in Moves(st[player])
    ensures forall i :: 0 <= i < |moves| ==> Reached(depth, player, moves, acc, sc)[i].after == st
    decreases |moves|
  {
    if moves != [] {
      LegalTail(moves, Moves(st[player]));
      MinimaxStepFacts(depth, player, st, moves[0], acc, sc);
      var next := MinimaxStep(depth, player, moves[0], acc, sc);
      ReachedUnderRestoring(depth, player, st, moves[1..], next, sc);
      var rs, rest := Reached(depth, player, moves, acc, sc), Reached(depth, player, moves[1..], next, sc);
      assert next.after == st;
      forall i | 0 <= i < |moves| ensures rs[i].after == st {
        if i > 0 { assert rs[i] == rest[i - 1]; }
      }
    }
  }

  /** So, under exact undo, the replies searched along the way are the
      `Reply` scores of the trees the loop started from. */
  lemma RepliesUnderRestoring(depth: int, player: Player, st: State, moves: seq<UnitType>, acc: Outcome, sc: Scoring)
    requires depth > 0 && Restoring(depth, player, st, sc) && acc.after == st
    requires forall m :: m in moves ==> m in Moves(st[player])
    ensures forall i :: 0 <= i < |moves| ==>
      ReplyAt(depth, player, moves, acc, i, sc).score == Reply(depth, player, st, moves[i], sc)
  {
    ReachedUnderRestoring(depth, player, st, moves, acc, sc);
  }

  // ------------------------------------------------------------ alpha-beta

  /** The pruned value `v` is exact strictly inside the window and on the
      right side of it outside. */
  predicate Bounds(v: int, m: int, alpha: int, beta: int)
  {
    (m <= alpha ==> v <= alpha) && (m >= beta ==> v >= beta) && (alpha < m < beta ==> v == m)
  }

  /** The pruned search bounds the plain search's score: for any window
      inside the 32-bit range, the result is exact when the plain score lies
      strictly inside the window, at most `alpha` when it lies at or below,
      and at least `beta` when it lies at or above. */
  lemma {:induction false} AlphaBetaWindow(depth: int, player: Player, alpha: int, beta: int, st: State, sc: Scoring)
    requires Restoring(depth, player, st, sc) && INT_MIN <= alpha < beta <= INT_MAX
    ensures Bounds(AlphaBetaSpec(depth, player, alpha, beta, st, sc).score, MinimaxSpec(depth, player, st, sc).score, alpha, beta)
    decreases if depth > 0 then depth else 0, 1
  {
    var moves := Moves(st[player]);
    if |moves| > 0 && depth > 0 {
      if player == SELF {
        MaxLoopWindow(depth, st, moves, alpha, Window(alpha, beta, NULL_TREE, st), Outcome(NULL_TREE, INT_MIN, st), sc);
      } else {
        MinLoopWindow(depth, st, moves, beta, Window(alpha, beta, NULL_TREE, st), Outcome(NULL_TREE, INT_MAX, st), sc);
      }
    }
  }

  /** The score the pruned search gives `player`'s move `m` in the window
      (`alpha`, `beta`). */
  function Pruned(depth: int, player: Player, st: State, m: UnitType, alpha: int, beta: int, sc: Scoring): int
    requires depth > 0
  {
    AlphaBetaSpec(depth - 1, Opponent(player), alpha, beta, Play(st, player, m, true, sc), sc).score
  }

  /** One step of each loop from the same trees: the pruned reply bounds
      the plain one, both steps keep a reply that improves on the bound with
      the tree of the move played, and both give the trees back. */
  lemma {:induction false} StepFacts(depth: int, player: Player, st: State, m: UnitType, w: Window, acc: Outcome, sc: Scoring)
    requires depth > 0 && Restoring(depth, player, st, sc) && m in Moves(st[player])
    requires w.trees == st && acc.after == st && INT_MIN <= w.alpha < w.beta <= INT_MAX
    ensures var v := Pruned(depth, player, st, m, w.alpha, w.beta, sc);
      var w' := AlphaBetaStep(depth, player, m, w, sc);
      Bounds(v, Reply(depth, player, st, m, sc), w.alpha, w.beta) &&
      w'.trees == st &&
      w'.alpha == (if player == SELF && v > w.alpha then v else w.alpha) &&
      w'.beta == (if player == ENEMY && v < w.beta then v else w.beta) &&
      w'.best == (if Improves(player, v, if player == SELF then w.alpha else w.beta)
                  then Play(st, player, m, true, sc)[player] else w.best)
    ensures var r := Reply(depth, player, st, m, sc);
      MinimaxStep(depth, player, m, acc, sc) ==
        Outcome(if Improves(player, r, acc.score) then Play(st, player, m, true, sc)[player] else acc.best,
                if Improves(player, r, acc.score) then r else acc.score, st)
    decreases depth, 0, 0
  {
    AlphaBetaWindow(depth - 1, Opponent(player), w.alpha, w.beta, Play(st, player, m, true, sc), sc);
    AlphaBetaRestores(depth - 1, Opponent(player), w.alpha, w.beta, Play(st, player, m, true, sc), sc);
    MinimaxStepFacts(depth, player, st, m, acc, sc);
  }

  /** The plain loop's score never gets worse than where it started. */
  lemma {:induction false} MinimaxLoopMonotone(depth: int, player: Player, moves: seq<UnitType>, acc: Outcome, sc: Scoring)
    requires depth > 0
    ensures !Improves(player, acc.score, MinimaxLoop(depth, player, moves, acc, sc).score)
    decreases |moves|
  {
    if moves != [] {
      MinimaxLoopMonotone(depth, player, moves[1..], MinimaxStep(depth, player, moves[0], acc, sc), sc);
    }
  }

  /** The loop at a maximising node: `alpha` only rises, to the plain score
      reached so far once it has risen above where it started. */
  lemma {:induction false} MaxLoopWindow(depth: int, st: State, moves: seq<UnitType>, alpha0: int, w: Window,
                                         acc: Outcome, sc: Scoring)
    requires depth > 0 && Restoring(depth, SELF, st, sc) && w.trees == st && acc.after == st
    requires forall m :: m in moves ==> m in Moves(st[SELF])
    requires INT_MIN <= alpha0 <= w.alpha < w.beta <= INT_MAX
    requires acc.score <= w.alpha && (w.alpha > alpha0 ==> w.alpha == acc.score)
    ensures Bounds(AlphaBetaLoop(depth, SELF, moves, w, sc).score, MinimaxLoop(depth, SELF, moves, acc, sc).score, alpha0, w.beta)
    decreases depth, 0, |moves|
  {
    if moves != [] {
      var m := moves[0];
      LegalTail(moves, Moves(st[SELF]));
      StepFacts(depth, SELF, st, m, w, acc, sc);
      var w' := AlphaBetaStep(depth, SELF, m, w, sc);
      var next := MinimaxStep(depth, SELF, m, acc, sc);
      if w'.alpha >= w'.beta {
        MinimaxLoopMonotone(depth, SELF, moves[1..], next, sc);
      } else {
        MaxLoopWindow(depth, st, moves[1..], alpha0, w', next, sc);
      }
    }
  }

  /** The loop at a minimising node, the mirror image of `MaxLoopWindow`. */
  lemma {:induction false} MinLoopWindow(depth: int, st: State, moves: seq<UnitType>, beta0: int, w: Window,
                                         acc: Outcome, sc: Scoring)
    requires depth > 0 && Restoring(depth, ENEMY, st, sc) && w.trees == st && acc.after == st
    requires forall m :: m in moves ==> m in Moves(st[ENEMY])
    requires INT_MIN <= w.alpha < w.beta <= beta0 <= INT_MAX
    requires acc.score >= w.beta && (w.beta < beta0 ==> w.beta == acc.score)
    ensures Bounds(AlphaBetaLoop(depth, ENEMY, moves, w, sc).score, MinimaxLoop(depth, ENEMY, moves, acc, sc).score, w.alpha, beta0)
    decreases depth, 0, |moves|
  {
    if moves != [] {
      var m := moves[0];
      LegalTail(moves, Moves(st[ENEMY]));
      StepFacts(depth, ENEMY, st, m, w, acc, sc);
      var w' := AlphaBetaStep(depth, ENEMY, m, w, sc);
      var next := MinimaxStep(depth, ENEMY, m, acc, sc);
      if w'.alpha >= w'.beta {
        MinimaxLoopMonotone(depth, ENEMY, moves[1..], next, sc);
      } else {
        MinLoopWindow(depth, st, moves[1..], beta0, w', next, sc);
      }
    }
  }

  /** The loop at a minimising node never raises `beta`. */
  lemma {:induction false} MinLoopAtMostBeta(depth: int, moves: seq<UnitType>, w: Window, sc: Scoring)
    requires depth > 0
    ensures AlphaBetaLoop(depth, ENEMY, moves, w, sc).score <= w.beta
    decreases |moves|
  {
    if moves != [] {
      var w' := AlphaBetaStep(depth, ENEMY, moves[0], w, sc);
      if w'.alpha < w'.beta {
        MinLoopAtMostBeta(depth, moves[1..], w', sc);
      }
    }
  }

  /** At a minimising node whose plain score is at most `beta`, the pruned
      score is at most `beta` too. */
  lemma EnemyPrunedAtMostBeta(depth: int, alpha: int, beta: int, st: State, sc: Scoring)
    requires MinimaxSpec(depth, ENEMY, st, sc).score <= beta
    ensures AlphaBetaSpec(depth, ENEMY, alpha, beta, st, sc).score <= beta
  {
    var moves := Moves(st[ENEMY]);
    if |moves| > 0 && depth > 0 {
      MinLoopAtMostBeta(depth, moves, Window(alpha, beta, NULL_TREE, st), sc);
    }
  }

  /** At the root, with the full 32-bit window, the pruned search returns
      exactly what the plain search returns (tree, score and trees left
      behind) whenever the plain score fits in the 32-bit range; a reply
      scoring the top of the range ends the pruned loop at once, and no
      later reply can beat it in the plain loop either. */
  lemma AlphaBetaMatchesMinimax(depth: int, st: State, sc: Scoring)
    requires Restoring(depth, SELF, st, sc) && MinimaxSpec(depth, SELF, st, sc).score <= INT_MAX
    ensures AlphaBetaSpec(depth, SELF, INT_MIN, INT_MAX, st, sc) == MinimaxSpec(depth, SELF, st, sc)
  {
    var moves := Moves(st[SELF]);
    if |moves| > 0 && depth > 0 {
      MinimaxChoosesBest(depth, SELF, st, sc);
      RootLoopAgrees(depth, st, moves, Window(INT_MIN, INT_MAX, NULL_TREE, st), sc);
    }
  }

  /** The root loop: while no reply scores above the top of the range,
      `alpha` is the plain search's best score so far and the best trees
      agree. */
  lemma {:induction false} RootLoopAgrees(depth: int, st: State, moves: seq<UnitType>, w: Window, sc: Scoring)
    requires depth > 0 && Restoring(depth, SELF, st, sc) && w.trees == st
    requires forall m :: m in moves ==> m in Moves(st[SELF]) && Reply(depth, SELF, st, m, sc) <= INT_MAX
    requires INT_MIN <= w.alpha < w.beta == INT_MAX
    ensures AlphaBetaLoop(depth, SELF, moves, w, sc) == MinimaxLoop(depth, SELF, moves, Outcome(w.best, w.alpha, st), sc)
    decreases |moves|
  {
    if moves != [] {
      var m := moves[0];
      assert m in moves;
      var acc := Outcome(w.best, w.alpha, st);
      StepFacts(depth, SELF, st, m, w, acc, sc);
      forall m' | m' in moves[1..] ensures m' in Moves(st[SELF]) && Reply(depth, SELF, st, m', sc) <= INT_MAX {
        assert m' in moves;
      }
      if Reply(depth, SELF, st, m, sc) == INT_MAX {
        EnemyPrunedAtMostBeta(depth - 1, w.alpha, w.beta, Play(st, SELF, m, true, sc), sc);
        var next := MinimaxStep(depth, SELF, m, acc, sc);
        MinimaxLoopBest(depth, SELF, st, moves[1..], next, sc);
        MinimaxLoopRestores(depth, SELF, st, moves[1..], next, sc);
      } else {
        RootLoopAgrees(depth, st, moves[1..], AlphaBetaStep(depth, SELF, m, w, sc), sc);
      }
    }
  }
}
