# ProBot build planning and bookkeeping, modelled in Dafny

ProBot is a StarCraft: Brood War bot. This project models the core of its
macro planning and its bookkeeping:

- **Technology trees** (`TechTree.h`, `TechTree.cpp`). A tree node carries a
  unit type, an "obtained" flag, a "unique" flag and an ordered list of
  children, held by value. A child can be built once its parent is obtained.
  The model has the following parts:
  - the race templates;
  - the searches (`findNode` in both forms, `getImmediateParent`,
    `findPrereqNodes`, `getUnitPrereqs`);
  - the updates (`setNodeObtained` in both forms, `setBuildingNodeObtained`
    with its cascade and its removal of a non-unique duplicate,
    `setPrereqsObtained`, `setNonUniqueNode`, `removeNode` in both forms);
  - the collectors (`findLeafNodes`, `findNonBuildingLeafNodes`,
    `findNextObtainableNodes`, `getObtainedNodes`);
  - `getFirstDifference`.

  A node is identified by its path of child indices. Every tree operation is
  a function from the old tree to the new tree and the returned `bool`. Its
  contract is stated in pre-order terms: "the first visible node of this type
  in pre-order".
- **Build search** (`BuildMinimax.cpp`, `BuildMinimax.h`). The two game trees
  and the target technology are the state of a class, `BuildSearch`. Its
  methods are:
  - plain minimax and alpha-beta minimax, which play a move, recurse and
    undo the move on the shared state;
  - the evaluation;
  - `minimaxNextBuilding`, `updateTargetTech` and `updateTechTree`;
  - the getters.

  Each method is proved against a recursive specification function. The
  theory proves the following about those functions:
  - on whatever trees each move leaves behind, minimax returns a score that
    no reply searched along the way beats, along with the tree of the first
    move, in the order tried, that achieves it;
  - when every move the search plays is undone exactly (the hypothesis
    `Restoring`), the search leaves the trees as it found them, the replies
    above are those of the starting trees, alpha-beta agrees with minimax
    inside its window, and exactly at the root whenever the minimax score
    fits in 32 bits, and the next building is the move that search picks
    whenever that move is a unique node not yet obtained;
  - exact undo is not guaranteed by the code: it fails for non-unique
    buildings and for unique buildings that also occur out of sight (see
    below);
  - every tree the bot searches has type None at its root only, which the
    first-difference lookup needs.
- **Knowledge bank** (`KnowledgeBank.cpp`). This class tracks:
  - tech counts per type for both players;
  - known enemy units by id;
  - enemy bases and the closest one.

  Sightings and kills update these and re-plan through the build search.
  When the re-planning throws, a sighting stops there, and an enemy it was
  recording is not remembered. The
  army-strength and count queries are loops proved equal to sums and
  cardinalities that do not depend on the iteration order.
- **Unit storage** (`UnitStorage.cpp`). This class keeps the bot's units
  filed into eight categories, a queue of units under construction and a
  list of refineries. Its contracts state which units each query returns and
  which categories each event updates. The methods preserve `Filed()`: every
  unit is filed under exactly the categories its type belongs to.
- **Control groups** (`ControlGroup.cpp`). A group holds a set of units, a
  current strategy flag and a remembered one. Each update first drops the
  units that are gone or of unknown type. Then an all-in
  group retreats when the knowledge bank advises against fighting. A retreat
  that came from an all-in resumes the all-in once that advice lifts. Every
  other flag, including a retreat ordered from outside, stays as it is.

Engine facts are parameters of the model. These include BWAPI's per-type
predicates (`isBuilding`, `isResourceDepot`, …), unit scores, distances, the
validity of a unit, and the iteration order of `std::unordered_map`. The model
never interprets them. `operator==` on trees compares root types only. In the
model it is `TreeBasics.SameType`, which `updateTechTree` uses to decide
whether a tree still needs its template.

Where the code and its comments disagree, the model follows the code:

- `findNonBuildingLeafNodes` (TechTree.cpp:210-218) keeps the obtained leaves
  that are not buildings. Its comment describes the opposite filter.
- `getFirstDifference` reads the second tree's children with `.at()`. When
  that tree has fewer children, the call throws. The model returns
  `OutOfRange` exactly when the walk reaches such a child before a differing
  flag (`TreeQueries.FirstDifferenceThrowsExactly`), and `updateTargetTech`
  then leaves the target unchanged.
- Undoing a move need not give the tree back, in two ways:
  - After the undo, a played non-unique building keeps only one copy.
    `setBuildingNodeObtained` erases the unobtained duplicate, and the undo
    does not put it back (`MinimaxTheory.UndoLosesDuplicate`). In the Protoss
    and Zerg templates this happens to the Stargate and the Citadel of Adun.
  - A unique building that also occurs below an unobtained node stays
    obtained after the undo. The play searches only below obtained nodes and
    flags the visible copy. The undo searches every node and finds the hidden
    copy first (`MinimaxTheory.UniqueDuplicateUndoDoesNotRestore`). In the
    Terran template the Factory's children are the Starport, which holds an
    Armory under its Control Tower, and then the Armory (TechTree.h:253-277).
    Once the Factory is obtained, a search that tries the Armory leaves the
    visible Armory obtained, together with its Goliath.

  So at the default depth of 2 the search itself can change
  `_gameTreeState`. The results about the searches that need their trees
  back take exact undo as a hypothesis (`Restoring`).
  `MinimaxTheory.MinimaxChoosesBestReached` states what minimax returns
  without it.
- The base-erasing loop of `handleEnemyUnitKilled` advances past the element
  that follows an erased base. It is exact only when base ids are distinct
  (`Knowledge.ErasedByIdSkips`, `Knowledge.ErasedByIdDistinct`).

## Model

| member | source | states |
|---|---|---|
| TreeBasics.Leaf | ProBot/Source/TechTree.h:21-24 | a node built from a type alone is unobtained, unique and childless |
| TreeBasics.Branch | ProBot/Source/TechTree.cpp:25-27 | the type-and-children constructor gives an unobtained, unique node with exactly those children |
| TreeBasics.WithFlag | ProBot/Source/TechTree.cpp:21-23 | the type-flag-children constructor keeps the given flag and children and is unique |
| TreeBasics.DefaultTree | ProBot/Source/TechTree.h:21-24 | the node built from the default constructor arguments has type None, is unobtained and unique, and has no children (this is not the sentinel `NULL_TREE`, whose type is Unknown) |
| TreeSearch.FindFirstSpec | ProBot/Source/TechTree.cpp:41-67 | the generic search returns the pre-order-first visible hit, or reports that no visible node is a hit |
| TreeSearch.FindAmongSpec | ProBot/Source/TechTree.cpp:46-52 | the loop over children returns the first hit among children i.. in pre-order, and only when the parent may be descended |
| TreeSearch.FindNode | ProBot/Source/TechTree.cpp:41-53 | findNode by type returns the pre-order-first node of that type reachable without passing an unobtained node when ignoring unobtained; None exactly when no such node exists |
| TreeSearch.FindNodeAt | ProBot/Source/TechTree.cpp:55-67 | findNode by node finds that node exactly when it is reachable under the visibility rule |
| TreeSearch.FindNodeBelowRoot | ProBot/Source/TechTree.cpp:69-80 | the first visible node of the type other than the root, or None when there is none |
| TreeSearch.ImmediateParentIsParentOfFirst | ProBot/Source/TechTree.cpp:69-80 | getImmediateParent returns the parent of the first node of the type below the root |
| TreeSearch.ImmediateParent | ProBot/Source/TechTree.cpp:69-80 | a parent exists iff the type occurs below the root, and it is the found node's path without its last step |
| TreeSearch.PrereqNodesSpec | ProBot/Source/TechTree.cpp:240-260 | findPrereqNodes returns the ancestors' types, root first, of the first node of the type below the root, or nothing when the type is absent |
| TreeSearch.GetUnitPrereqs | ProBot/Source/TechTree.cpp:262-267 | getUnitPrereqs is the ancestor types of the found node with the root's type dropped |
| TreeUpdate.SetFlag | ProBot/Source/TechTree.cpp:93-114 | writing the flag at a path changes that flag and nothing else: same shape, same types, every other flag kept |
| TreeUpdate.SetNodeObtained | ProBot/Source/TechTree.cpp:93-102 | returns true iff the type occurs anywhere; then only the first node of that type has its flag set; otherwise the tree is unchanged |
| TreeUpdate.SetNodeObtainedAt | ProBot/Source/TechTree.cpp:104-114 | returns true iff the node exists; then only its flag changes; otherwise the tree is unchanged |
| TreeUpdate.FindNodeSkeleton | ProBot/Source/TechTree.cpp:41-53 | flag changes never move where findNode looks: trees of the same shape and types give the same answer |
| TreeUpdate.RemoveFirstMatch | ProBot/Source/TechTree.cpp:156-185 | the removal loop deletes the first hit below the root and reports whether there was one |
| TreeUpdate.FirstWithFlag | ProBot/Source/TechTree.cpp:156-170 | the first non-root node with the type and the flag, in pre-order; None iff there is no such node |
| TreeUpdate.RemoveNode | ProBot/Source/TechTree.cpp:156-170 | removeNode by type and flag deletes exactly that first match (never the root) and reports it; otherwise leaves the tree unchanged |
| TreeUpdate.RemoveNodeAt | ProBot/Source/TechTree.cpp:172-185 | removeNode by node deletes that node iff it exists and is not the root |
| TreeUpdate.FoundNodeSurvives | ProBot/Source/TechTree.cpp:116-129 | erasing the duplicate after the flag write never moves or removes the node that was found |
| TreeUpdate.CascadeLoop | ProBot/Source/TechTree.cpp:129-133 | the cascade sets the flag on exactly the non-building children of the played node |
| TreeUpdate.SetBuildingNodeObtained | ProBot/Source/TechTree.cpp:116-135 | the method computes the building update: find, flag, erase a duplicate if non-unique, cascade |
| TreeUpdate.BuildingObtainedSpec | ProBot/Source/TechTree.cpp:116-135 | returns true iff a visible node of the type exists; the found node then carries the new flag and its non-building children share it; unless an erased duplicate lay below it, its building children are untouched and it keeps its number of children; for a unique node the tree keeps its shape; false leaves the tree alone |
| TreeUpdate.BuildingObtainedUnique | ProBot/Source/TechTree.cpp:116-135 | for a unique node the result is the tree with the found node replaced by its flipped copy whose non-building children are flipped too; nothing is erased |
| TreeUpdate.BuildingObtainedNonUnique | ProBot/Source/TechTree.cpp:116-135 | for a non-unique node: with no other node of the type flagged the other way, the result is as in the unique case; otherwise it is the flipped tree with the first such node erased, then the found node's non-building children flipped; the found node's subtree is the unique case's unless the erased node lay below it |
| TreeUpdate.ApplyUndoRestores | ProBot/Source/BuildMinimax.cpp:28-47 | playing a unique, once-occurring, unobtained building reachable through obtained nodes (as every move is), whose non-building children are unobtained, succeeds, and undoing it gives back the original tree |
| TreeUpdate.SetAllSpec | ProBot/Source/TechTree.cpp:137-144 | when every listed type occurs, flagging them all succeeds and sets exactly the first node of each type |
| TreeUpdate.SetPrereqsObtained | ProBot/Source/TechTree.cpp:137-144 | setPrereqsObtained flags, one by one, the types findPrereqNodes lists |
| TreeUpdate.PrereqsObtainedSpec | ProBot/Source/TechTree.cpp:137-144 | setPrereqsObtained always succeeds and flags the first node of each ancestor type of the unit |
| TreeUpdate.RemoveAtNoneOnlyAtRoot | ProBot/Source/TechTree.cpp:156-185 | erasing a node below the root keeps type None at the root only |
| TreeUpdate.BuildingObtainedNoneOnlyAtRoot | ProBot/Source/TechTree.cpp:116-135 | setBuildingNodeObtained keeps type None at the root only |
| TreeUpdate.SetAllNoneOnlyAtRoot | ProBot/Source/TechTree.cpp:137-144 | setPrereqsObtained keeps type None at the root only |
| TreeUpdate.SetNonUniqueNode | ProBot/Source/TechTree.cpp:146-154 | a missing node changes nothing and reports false; otherwise the node is flagged, and the call succeeds iff a non-root node of its type still has the opposite flag, the first of which is then removed |
| TreeQueries.Collect | ProBot/Source/TechTree.cpp:202-227 | the recursive collector appends the nodes of its pre-order walk to what it was given |
| TreeQueries.FindLeafNodes | ProBot/Source/TechTree.cpp:202-208 | findLeafNodes appends the tree's leaves in pre-order |
| TreeQueries.LeafNodesSpec | ProBot/Source/TechTree.cpp:202-208 | the walk visits exactly the childless nodes, in pre-order |
| TreeQueries.LeafMembers | ProBot/Source/TechTree.cpp:202-208 | a node is in the result iff it is a leaf of the tree |
| TreeQueries.KeepObtainedMembers | ProBot/Source/TechTree.cpp:213-216 | the first filter keeps exactly the obtained nodes and never grows the list |
| TreeQueries.DropBuildingsMembers | ProBot/Source/TechTree.cpp:213-216 | the second filter keeps exactly the nodes that are not buildings |
| TreeQueries.FindNonBuildingLeafNodes | ProBot/Source/TechTree.cpp:210-218 | the result is the leaves filtered to obtained non-buildings, in pre-order |
| TreeQueries.NonBuildingLeafMembers | ProBot/Source/TechTree.cpp:210-218 | a node is in the result iff it is an obtained leaf that is not a building |
| TreeQueries.FindNextObtainableNodes | ProBot/Source/TechTree.cpp:220-227 | appends the unobtained nodes whose ancestors are all obtained, in pre-order |
| TreeQueries.NextObtainableSpec | ProBot/Source/TechTree.cpp:220-227 | the walk visits exactly the unobtained nodes reachable through obtained nodes, in pre-order |
| TreeQueries.GetObtainedNodes | ProBot/Source/TechTree.cpp:269-275 | appends the types of all obtained nodes in pre-order |
| TreeQueries.ObtainedNodesSpec | ProBot/Source/TechTree.cpp:269-275 | the walk visits exactly the obtained nodes, in pre-order |
| TreeQueries.FirstDiffWitness | ProBot/Source/TechTree.cpp:229-238 | on trees of the same shape whose first tree has type None only at its root, getFirstDifference returns the type of the pre-order-first node whose flag differs, or None when no flag differs |
| TreeQueries.FirstDifferenceSpec | ProBot/Source/TechTree.cpp:229-238 | on trees of the same shape whose first tree has type None only at its root, the lookup never throws, returns the type of the pre-order-first differing node, and returns None exactly when no flag differs or only the None-typed roots' flags differ |
| TreeQueries.FirstDifferenceThrows | ProBot/Source/TechTree.cpp:229-238 | on one example, a second tree lacking the first tree's only child, the `.at()` lookup fails |
| TreeQueries.FirstDifferenceThrowsExactly | ProBot/Source/TechTree.cpp:229-238 | when only the root of the first tree has type None, the lookup throws iff its pre-order walk reaches a child the second tree lacks before any node whose flag differs |
| TechTemplates.ProtossUnobtained | ProBot/Source/TechTree.h:191-251 | the Protoss template starts with every node unobtained |
| TechTemplates.ProtossNonUniqueRoots | ProBot/Source/TechTree.h:198-251 | the Stargate and Citadel of Adun at the roots of the shared branches are the non-unique nodes |
| TechTemplates.CoreUniqueElsewhere | ProBot/Source/TechTree.h:198-251 | every other node of the Cybernetics Core branch is unique |
| TechTemplates.ProtossUniqueElsewhere | ProBot/Source/TechTree.h:191-251 | outside the Cybernetics Core branch every Protoss node is unique |
| TechTemplates.ProtossNonUnique | ProBot/Source/TechTree.h:191-251 | exactly two nodes of the Protoss template are non-unique |
| TechTemplates.PartsOccurTwice | ProBot/Source/TechTree.h:198-251 | the Stargate and the Citadel of Adun each occur twice: once as a non-unique branch root and once as a unique node under the other branch |
| TechTemplates.TerranClean | ProBot/Source/TechTree.h:253-291 | no node of the Terran template is obtained or non-unique |
| TechTemplates.ZergIsProtoss | ProBot/Source/TechTree.h:294-310 | the Zerg template is the Protoss one |
| TechTemplates.GetBaseTree | ProBot/Source/TechTree.cpp:187-200 | an unknown race gets the null tree; every other race's template is rooted at None with its depot, supply and gas buildings below, and starts with nothing obtained |
| TechTemplates.NexusPrereqs | ProBot/Source/TechTree.cpp:262-267 | the Nexus, directly under the root, has no prerequisites |
| TechTemplates.ProbePrereqs | ProBot/Source/TechTree.cpp:262-267 | a Probe needs a Nexus |
| TechTemplates.ZealotPrereqs | ProBot/Source/TechTree.cpp:262-267 | a Zealot needs a Nexus, then a Gateway |
| TechTemplates.ProtossNoneOnlyAtRoot | ProBot/Source/TechTree.h:191-251 | in the Protoss template only the root has type None |
| TechTemplates.TerranNoneOnlyAtRoot | ProBot/Source/TechTree.h:253-291 | in the Terran template only the root has type None |
| TechTemplates.BaseTreeNoneOnlyAtRoot | ProBot/Source/TechTree.cpp:187-200 | for every race, only the root of the tree getBaseTree gives has type None |
| Evaluation.GenerateMoves | ProBot/Source/BuildMinimax.cpp:107-115 | the moves are the types of the next obtainable nodes, in pre-order |
| Evaluation.MovesAreFrontier | ProBot/Source/BuildMinimax.cpp:107-115 | the move list equals the types of the collector's frontier |
| Evaluation.MovesAreFrontierTypes | ProBot/Source/BuildMinimax.cpp:107-115 | a type is a move iff some unobtained node of it is reachable through obtained nodes |
| Evaluation.EvaluateTree | ProBot/Source/BuildMinimax.cpp:126-143 | the score of two trees is the double sum over their obtained non-building leaves |
| Evaluation.ScoreUnits | ProBot/Source/BuildMinimax.cpp:129-141 | the outer loop adds the base score and one row per unit of the first list |
| Evaluation.AddRow | ProBot/Source/BuildMinimax.cpp:133-140 | the inner loop adds one unit's score difference and advantage against each unit of the second list |
| Evaluation.TreeScoreClosedForm | ProBot/Source/BuildMinimax.cpp:126-143 | the score is 1000 per own unit, plus the own score total weighted by the enemy's count, minus the enemy's total weighted by the own count, plus the summed advantages |
| Evaluation.RowClosedForm | ProBot/Source/BuildMinimax.cpp:133-140 | one unit's row equals count × own score − enemy total + its advantages |
| Evaluation.EmptySides | ProBot/Source/BuildMinimax.cpp:126-143 | with no own units the score is 0; with no enemy units it is 1000 per own unit |
| Evaluation.AdvantageEmpty | ProBot/Source/BuildMinimax.cpp:133-140 | against no enemy units there is no advantage |
| BuildMinimax.Opponent | ProBot/Source/BuildMinimax.cpp:30-45 | the recursion alternates between the two players |
| BuildMinimax.RecordAll | ProBot/Source/BuildMinimax.cpp:158-163 | the loop over reported types flags each type's prerequisites, then plays it |
| BuildMinimax.KeptIfBetter | ProBot/Source/BuildMinimax.cpp:79-90 | the kept score is the old best or the reply's, and is at least as good for the mover as both; the kept tree changes exactly when the score does, so a tie keeps the earlier tree |
| BuildMinimax.Narrowed | ProBot/Source/BuildMinimax.cpp:33-44 | only the mover's own bound moves; it becomes the old bound or the reply's score and is at least as good for the mover as both; the kept tree changes exactly when that bound does |
| BuildMinimax.BuildSearch.constructor | ProBot/Source/BuildMinimax.h:32-35 | both trees start as the null tree and the target is None |
| BuildMinimax.BuildSearch.EvaluateGameState | ProBot/Source/BuildMinimax.cpp:117-124 | the evaluation of the current state is the first player's tree scored against the second's |
| BuildMinimax.BuildSearch.Minimax | ProBot/Source/BuildMinimax.cpp:57-99 | the method yields the specified minimax outcome, including the trees it leaves |
| BuildMinimax.BuildSearch.MinimaxMoves | ProBot/Source/BuildMinimax.cpp:71-95 | the move loop yields the specified fold over the moves |
| BuildMinimax.BuildSearch.MinimaxPass | ProBot/Source/BuildMinimax.cpp:72-94 | one iteration plays, recurses, scores and undoes as the specification's step does |
| BuildMinimax.BuildSearch.MinimaxAlphaBeta | ProBot/Source/BuildMinimax.cpp:13-55 | the method yields the specified alpha-beta outcome, including the trees it leaves |
| BuildMinimax.BuildSearch.AlphaBetaMoves | ProBot/Source/BuildMinimax.cpp:26-51 | the move loop yields the specified fold, stopping once alpha reaches beta |
| BuildMinimax.BuildSearch.AlphaBetaPass | ProBot/Source/BuildMinimax.cpp:27-50 | one iteration plays, recurses, narrows the window and undoes as the specification's step does |
| BuildMinimax.BuildSearch.MinimaxNextBuilding | ProBot/Source/BuildMinimax.cpp:101-105 | the result is the first difference between the searched best tree and the first player's tree |
| BuildMinimax.BuildSearch.UpdateTargetTech | ProBot/Source/BuildMinimax.cpp:168-170 | the target becomes the next building, and stays unchanged when the lookup throws |
| BuildMinimax.BuildSearch.RecordTechUnits | ProBot/Source/BuildMinimax.cpp:145-163 | the player's tree starts from its race template if it is still null, then every reported type is recorded; the other tree is unchanged |
| BuildMinimax.BuildSearch.UpdateTechTree | ProBot/Source/BuildMinimax.cpp:152-166 | updateTechTree records the reported types, then re-targets from the recorded state |
| BuildMinimax.BuildSearch.PrereqObtained | ProBot/Source/BuildMinimax.cpp:172-174 | the answer is the obtained flag of the parent of the first node of the type in the first player's tree |
| BuildMinimax.BuildSearch.GetParentType | ProBot/Source/BuildMinimax.cpp:176-178 | the answer is the type of that parent |
| BuildMinimax.BuildSearch.GetTargetTech | ProBot/Source/BuildMinimax.cpp:180-182 | returns the stored target |
| BuildMinimax.BuildSearch.GetGameTree | ProBot/Source/BuildMinimax.cpp:184-186 | returns the stored tree of the player |
| MinimaxTheory.UndoLosesDuplicate | ProBot/Source/TechTree.cpp:116-135 | on a tree with two unobtained Stargate copies, playing a Stargate and then undoing it leaves only one copy |
| MinimaxTheory.UniqueDuplicateUndoDoesNotRestore | ProBot/Source/BuildMinimax.cpp:28-47 | on a tree whose root holds an unobtained Starport with an Armory below it, then a second Armory, playing the Armory flags the second copy, and undoing it leaves the tree as played, not as it was |
| MinimaxTheory.PlayErasesCopy | ProBot/Source/TechTree.cpp:116-135 | playing a non-unique building flags its first copy and erases the second |
| MinimaxTheory.UndoKeepsOneCopy | ProBot/Source/BuildMinimax.cpp:28-47 | the undo unflags the remaining copy but does not restore the erased one |
| MinimaxTheory.MinimaxRestores | ProBot/Source/BuildMinimax.cpp:57-99 | when every played move is undone exactly, minimax leaves the trees as it found them |
| MinimaxTheory.AlphaBetaRestores | ProBot/Source/BuildMinimax.cpp:13-55 | under the same hypothesis, alpha-beta leaves the trees as it found them |
| MinimaxTheory.MinimaxLoopBest | ProBot/Source/BuildMinimax.cpp:71-95 | when every played move is undone exactly, the loop ends with a score no reply beats: either the one it started with, with its tree, or a strictly better one, the score of the first move whose reply reaches it (every earlier reply is strictly worse), with that move's tree |
| MinimaxTheory.MinimaxChoosesBest | ProBot/Source/BuildMinimax.cpp:57-99 | when every played move is undone exactly, the trees are given back; no move's reply beats the returned score; the score and tree are those of the first move whose reply reaches that score, unless no reply beats the starting bound, when they are the bound and the null tree |
| MinimaxTheory.MinimaxLoopBestReached | ProBot/Source/BuildMinimax.cpp:71-95 | with no assumption on the undo, each move's reply being searched on the trees the loop has reached by then: the loop ends with a score no such reply beats, either the one it started with, with its tree, or the score of the first move whose reply reaches it, with the mover's tree as that reply's search left it |
| MinimaxTheory.MinimaxChoosesBestReached | ProBot/Source/BuildMinimax.cpp:57-99 | with no assumption on the undo: no reply searched along the way beats the returned score, and the score and tree are those of the first move whose reply reaches it, unless no reply beats the starting bound, when they are the bound and the null tree |
| MinimaxTheory.ReachedUnderRestoring | ProBot/Source/BuildMinimax.cpp:71-95 | when every played move is undone exactly, each pass of the loop starts from the trees the loop started from |
| MinimaxTheory.RepliesUnderRestoring | ProBot/Source/BuildMinimax.cpp:71-95 | so, under exact undo, the replies searched along the way are the replies to the starting trees |
| MinimaxTheory.AlphaBetaWindow | ProBot/Source/BuildMinimax.cpp:13-55 | under exact undo, alpha-beta's value equals minimax's strictly inside the window and is on the same side of the window outside it |
| MinimaxTheory.MaxLoopWindow | ProBot/Source/BuildMinimax.cpp:26-51 | under exact undo, the maximising loop's value is bounded by minimax's loop in the window sense |
| MinimaxTheory.MinLoopWindow | ProBot/Source/BuildMinimax.cpp:26-51 | under exact undo, the minimising loop's value is bounded by minimax's loop in the window sense |
| MinimaxTheory.MinLoopAtMostBeta | ProBot/Source/BuildMinimax.cpp:26-51 | at a minimising node the loop's result is never above the `beta` it started with |
| MinimaxTheory.EnemyPrunedAtMostBeta | ProBot/Source/BuildMinimax.cpp:12-55 | at a minimising node whose minimax score is at most `beta`, the pruned score is at most `beta` too |
| MinimaxTheory.RootLoopAgrees | ProBot/Source/BuildMinimax.cpp:25-51 | under exact undo, at the root with `beta` at `INT_MAX`, while no reply scores above `INT_MAX`, the pruned loop returns exactly what the plain loop returns from the same best tree and score; a reply of `INT_MAX` cuts the pruned loop off, and no later reply beats it in the plain loop |
| MinimaxTheory.AlphaBetaMatchesMinimax | ProBot/Source/BuildMinimax.cpp:101-105 | under exact undo, whenever the minimax score is at most `INT_MAX`, as a C++ `int` always is, alpha-beta from the full window at the root gives exactly minimax's outcome: tree, score and trees left behind |
| NextBuildingTheory.PlayedMoveIsFirstDifference | ProBot/Source/TechTree.cpp:229-238 | playing a fresh unique building makes that building's type the first difference from the tree before |
| NextBuildingTheory.NextBuildingIsChosenMove | ProBot/Source/BuildMinimax.cpp:101-105 | under exact undo, with None only at the root of the first player's tree: the first legal move, in the order tried, whose reply attains the minimax value is the next building whenever the search finds that move as a unique, unobtained node |
| NextBuildingTheory.PlayKeepsNoneAtRoots | ProBot/Source/BuildMinimax.cpp:28-47 | playing or undoing a move keeps type None at the roots only |
| NextBuildingTheory.RecordNoneOnlyAtRoot | ProBot/Source/BuildMinimax.cpp:158-163 | the recording loop of updateTechTree keeps type None at the root only |
| NextBuildingTheory.RecordedNoneOnlyAtRoot | ProBot/Source/BuildMinimax.cpp:152-166 | after updateTechTree records its types, the player's tree has type None at its root only, whether it started as the null tree or not |
| NextBuildingTheory.MinimaxKeepsNoneAtRoots | ProBot/Source/BuildMinimax.cpp:57-99 | minimax leaves both trees with type None at their roots only, even when its undo is not exact |
| NextBuildingTheory.AlphaBetaKeepsNoneAtRoots | ProBot/Source/BuildMinimax.cpp:13-55 | alpha-beta does too |
| Knowledge.InsertTechSpec | ProBot/Source/KnowledgeBank.cpp:78-84 | insertTech adds the type with count 1 or increments its count, and leaves every other count alone |
| Knowledge.DecrementedSpec | ProBot/Source/KnowledgeBank.cpp:26-31 | a kill decrements a positive count of its type and changes nothing else |
| Knowledge.KilledUndoesInsert | ProBot/Source/KnowledgeBank.cpp:26-31 | a kill undoes a sighting of a known type; for a type never seen before it leaves a zero entry |
| Knowledge.StrengthPermutation | ProBot/Source/KnowledgeBank.cpp:86-92 | the army-strength sum is the same for any reordering of the ids |
| Knowledge.StrengthOrderFree | ProBot/Source/KnowledgeBank.cpp:86-92 | every iteration order of the enemy map gives the same strength |
| Knowledge.CountOfKind | ProBot/Source/KnowledgeBank.cpp:156-161 | the counting loop yields the tally of enemies of the type |
| Knowledge.TallyIsCount | ProBot/Source/KnowledgeBank.cpp:150-163 | the tally equals the number of known enemies of the type, whatever the iteration order |
| Knowledge.AliveMembers | ProBot/Source/KnowledgeBank.cpp:121 | pruning keeps exactly the bases with positive health |
| Knowledge.NearestSpec | ProBot/Source/KnowledgeBank.cpp:119-136 | the closest base is the first base at minimal distance, or the null base at maximal distance when there are none |
| Knowledge.ErasedByIdDistinct | ProBot/Source/KnowledgeBank.cpp:67-76 | with distinct ids, the erase loop removes exactly the bases with the killed id |
| Knowledge.ErasedByIdSkips | ProBot/Source/KnowledgeBank.cpp:67-76 | two bases with the same id: the loop erases the first and skips the second |
| Knowledge.EraseById | ProBot/Source/KnowledgeBank.cpp:67-76 | the erase-while-iterating loop computes the specified erasure |
| Knowledge.KnowledgeBank.constructor | ProBot/Source/KnowledgeBank.cpp:13 | all maps and the base list start empty, and the closest base is unknown |
| Knowledge.KnowledgeBank.HandleMyUnitFirstSighting | ProBot/Source/KnowledgeBank.cpp:15-24 | a tech unit of ours (a depot, or a building providing no supply) is counted, our tree updated and the target re-planned; any other unit changes nothing; enemy data is unchanged; the call completes unless the re-planning throws |
| Knowledge.KnowledgeBank.HandleMyUnitKilled | ProBot/Source/KnowledgeBank.cpp:26-31 | a kill decrements our count of its type and nothing else changes |
| Knowledge.KnowledgeBank.HandleEnemyUnitFirstSighting | ProBot/Source/KnowledgeBank.cpp:45-65 | a depot is added to the bases, tech is counted and re-planned; the call completes exactly when the unit is not tech or the re-planning does not throw, and only then is a new enemy recorded, once by id; our tech is unchanged |
| Knowledge.KnowledgeBank.NoteEnemyBase | ProBot/Source/KnowledgeBank.cpp:46-51 | a resource depot is appended to the bases and the closest base recomputed; anything else changes nothing |
| Knowledge.KnowledgeBank.NoteEnemyTech | ProBot/Source/KnowledgeBank.cpp:53-59 | an enemy tech unit is counted and the enemy tree updated and re-planned; it reports whether `updateTechTree` returned normally |
| Knowledge.KnowledgeBank.HandleEnemyUnitKilled | ProBot/Source/KnowledgeBank.cpp:67-76 | the enemy is forgotten by id, and a depot's base entries are erased as the loop does |
| Knowledge.KnowledgeBank.UpdateClosestEnemyBase | ProBot/Source/KnowledgeBank.cpp:119-136 | dead bases are dropped and the closest base is the nearest survivor |
| Knowledge.KnowledgeBank.GetNumberOfEnemiesOfType | ProBot/Source/KnowledgeBank.cpp:150-163 | a building type reads the enemy tech count (inserting zero when missing); any other type counts the known enemies of that type |
| Knowledge.KnowledgeBank.EvaluateEnemyArmyStrength | ProBot/Source/KnowledgeBank.cpp:86-92 | the sum of unit scores over all known enemies |
| Knowledge.KnowledgeBank.EvaluateMyArmyStrength | ProBot/Source/KnowledgeBank.cpp:94-100 | the sum of unit scores over our units |
| Knowledge.KnowledgeBank.ShouldNotFight | ProBot/Source/KnowledgeBank.cpp:102-104 | true iff the enemy army's strength exceeds ours plus the safety buffer |
| Knowledge.KnowledgeBank.GetEnemyDataById | ProBot/Source/KnowledgeBank.cpp:138-140 | the stored enemy for a known id; a missing id is an error |
| Knowledge.KnowledgeBank.GetEnemyTech | ProBot/Source/KnowledgeBank.cpp:142-144 | returns the enemy tech counts |
| Knowledge.KnowledgeBank.GetMyTech | ProBot/Source/KnowledgeBank.cpp:146-148 | returns our tech counts |
| Storage.Categories | ProBot/Source/UnitStorage.cpp:31-51 | every type is in ALL; no type is both worker and combat; trainers, upgraders and researchers are buildings |
| Storage.Highest | ProBot/Source/UnitStorage.cpp:69-75 | the highest set category index up to i, or ALL when none is set |
| Storage.SearchCategory | ProBot/Source/UnitStorage.cpp:65-82 | the category searched is one the type belongs to |
| Storage.PickCategory | ProBot/Source/UnitStorage.cpp:69-75 | the loop picks the highest set category |
| Storage.FilterType | ProBot/Source/UnitStorage.cpp:77-80 | the filter keeps exactly the units of the type |
| Storage.TakeN | ProBot/Source/UnitStorage.cpp:84-111 | takes units satisfying the filter, as many as requested (at least one) or all there are |
| Storage.SwapRemoveSpec | ProBot/Source/UnitStorage.cpp:164-170 | swap-with-last removal removes one occurrence, moves the last element into the gap and keeps the rest in place |
| Storage.SwapRemoveBag | ProBot/Source/UnitStorage.cpp:164-170 | the removed unit plus the remaining queue are the old queue |
| Storage.FirstIndex | ProBot/Source/UnitStorage.cpp:149-153 | the position of the first occurrence, or the length when absent |
| Storage.DequeuedSpec | ProBot/Source/UnitStorage.cpp:164-170 | removing from the queue drops one occurrence if present and is a no-op otherwise |
| Storage.CreateThenDequeue | ProBot/Source/UnitStorage.cpp:141-170 | queueing a unit and then removing it leaves the same units queued |
| Storage.FiledAdded | ProBot/Source/UnitStorage.cpp:126-139 | adding a unit to exactly its categories keeps every unit filed correctly |
| Storage.FiledRemoved | ProBot/Source/UnitStorage.cpp:118-124 | removing a unit from every category keeps the filing and removes the unit |
| Storage.UnitStorage.constructor | ProBot/Source/UnitStorage.cpp:14-16 | every category, the queue and the refinery list start empty |
| Storage.UnitStorage.GetUnitsOfType | ProBot/Source/UnitStorage.cpp:65-82 | the units of the type within the most specific category the type belongs to |
| Storage.UnitStorage.TypeSearchFindsAll | ProBot/Source/UnitStorage.cpp:65-82 | while every unit is filed under its type's categories, searching the narrower category finds every stored unit of the type |
| Storage.UnitStorage.GetNUnitsOfType | ProBot/Source/UnitStorage.cpp:84-94 | up to n units of the type that satisfy the filter (at least one if any exists) |
| Storage.UnitStorage.GetNUnitsOfCategory | ProBot/Source/UnitStorage.cpp:96-111 | no units for n ≤ 0; otherwise min(n, all matching) units of the category that satisfy the filter |
| Storage.UnitStorage.HandleUnitDestroy | ProBot/Source/UnitStorage.cpp:118-124 | the unit leaves exactly the categories its type flags, the others are unchanged; when the unit was filed under its type's categories, it leaves every category and the filing invariant holds afterwards |
| Storage.UnitStorage.HandleUnitComplete | ProBot/Source/UnitStorage.cpp:126-139 | an invalid unit changes nothing; otherwise it leaves the queue, joins exactly its categories, and a refinery is listed with no workers |
| Storage.UnitStorage.FileUnit | ProBot/Source/UnitStorage.cpp:131-134 | the unit is added to exactly the categories its type belongs to |
| Storage.UnitStorage.HandleUnitCreate | ProBot/Source/UnitStorage.cpp:141-143 | the unit is appended to the queue |
| Storage.UnitStorage.Find | ProBot/Source/UnitStorage.cpp:149-153 | the search loop returns the first occurrence's position |
| Storage.UnitStorage.IsInQueue | ProBot/Source/UnitStorage.cpp:149-153 | true iff the unit is queued |
| Storage.UnitStorage.IsTypeInQueue | ProBot/Source/UnitStorage.cpp:155-162 | true iff some queued unit has the type |
| Storage.UnitStorage.RemoveFromQueue | ProBot/Source/UnitStorage.cpp:164-170 | the queue loses one occurrence of the unit, by swap-with-last |
| Storage.UnitStorage.ClearAll | ProBot/Source/UnitStorage.cpp:187-191 | every category is emptied |
| Storage.UnitStorage.GetUnits | ProBot/Source/UnitStorage.cpp:53-55 | a copy of the units of the category |
| Storage.UnitStorage.GetQueuedUnits | ProBot/Source/UnitStorage.cpp:145-147 | the queue |
| Storage.UnitStorage.GetRefineryUnits | ProBot/Source/UnitStorage.cpp:113-115 | a copy of the refinery list |
| Groups.UpdatedTransitions | ProBot/Source/ControlGroup.cpp:66-93 | all-in turns to retreat exactly when advised not to fight; a retreat turns all-in exactly when the advice lifts and it came from an all-in; any other flag stays, and the remembered flag changes only with the current one |
| Groups.ImposedRetreatLasts | ProBot/Source/ControlGroup.cpp:71-84 | a retreat imposed over a non-all-in flag persists through any sequence of updates |
| Groups.AllInRuns | ProBot/Source/ControlGroup.cpp:71-84 | a group that starts all-in stays all-in or in a retreat remembered as from an all-in, and is all-in exactly when the last advice allowed fighting |
| Groups.RetreatRuns | ProBot/Source/ControlGroup.cpp:71-84 | a retreat that came from an all-in ends all-in exactly when the last advice allowed fighting |
| Groups.ControlGroup.constructor | ProBot/Source/ControlGroup.cpp:17-20 | the group holds the given units and flag |
| Groups.ControlGroup.Equals | ProBot/Source/ControlGroup.cpp:13-15 | groups are equal iff they hold the same units |
| Groups.ControlGroup.GetFlag | ProBot/Source/ControlGroup.cpp:95-97 | the current flag |
| Groups.ControlGroup.OverrideFlag | ProBot/Source/ControlGroup.cpp:99-102 | the old flag is remembered and the new one set; the units are unchanged |
| Groups.ControlGroup.ValidateUnits | ProBot/Source/ControlGroup.cpp:22-26 | exactly the units of known type that the engine reports live remain; the flags are unchanged |
| Groups.ControlGroup.Update | ProBot/Source/ControlGroup.cpp:66-93 | the units are those `validateUnits` keeps; the flags move by the transition rule |
| Groups.ControlGroup.AddUnit | ProBot/Source/ControlGroup.cpp:109-111 | the unit joins; the flags are unchanged |
| Groups.ControlGroup.AddUnits | ProBot/Source/ControlGroup.cpp:113-116 | the units join; the flags are unchanged |
| Groups.ControlGroup.RemoveUnit | ProBot/Source/ControlGroup.cpp:118-120 | the unit leaves; the flags are unchanged |
| Groups.ControlGroup.RemoveUnits | ProBot/Source/ControlGroup.cpp:122-125 | the units leave; the flags are unchanged |
| Groups.ControlGroup.SetControlGroup | ProBot/Source/ControlGroup.cpp:127-129 | the unit set is replaced; the flags are unchanged |

## Left out

- The engine (BWAPI) is not modelled: unit handles, unit positions, the game clock and the commands the bot sends. Unit types, the per-type trait predicates, unit scores, advantages, distances and unit validity are parameters.
- `initTree` (BuildMinimax.cpp:145-150) reads the player's race from the engine. The race is a parameter of `RecordTechUnits` and `UpdateTechTree`.
- `std::unordered_map` iteration order is unspecified. It is an explicit `order`/`ids` parameter, constrained to list each key exactly once. The strength and count lemmas show that the result does not depend on it.
- 32-bit `int` overflow is not modelled. Scores, sums and tech counts are unbounded integers, and tech counts are `nat`. The search bounds `INT_MIN`/`INT_MAX` keep their 32-bit values.
- `findAllNodesOfType` (TechTree.cpp:82-91) is not modelled: no core operation calls it.
- `getClosestEnemyBase` (KnowledgeBank.cpp:106-117) is not modelled: it falls back to the start locations the engine reports.
- `updateEnemyUnits`, `draw` (in every class), `moveAsGroup`, `isInCombat`, `getUnitsUsingFilter`, `setAll` and `getUnits` of a control group are not modelled. They read live unit state from the engine, issue orders or only draw on screen.
- Storage.UnitStorage.GetUnits: returns a copy of the category's set. The C++ returns a `Unitset&`, and callers in the rest of the bot write through it: the macro manager erases its scout from WORKER and clears COMBAT when it forms an all-in group. Those writes are not modelled, so `Filed()` holds only while UnitStorage's own methods touch the sets; after such a write, `getUnitsOfType` can miss units that are still in ALL.
- Storage.UnitStorage.GetRefineryUnits: returns a copy of the refinery list. The C++ returns a reference whose worker counts callers raise in place; those writes are not modelled.
- A unit's type is fixed when it is stored (the `Unit` datatype pairs an id with a type). The C++ keys units on their handle and reads the type live, so a unit that changes type (a templar merged into an Archon) stays filed under its old type's categories there, while the model would treat it as two units.
- `removeInvalidQueueUnits` (UnitStorage.cpp:172-178) is not modelled. Erasing while iterating there is undefined behaviour, and the model has no null units to drop, so `IsTypeInQueue` skips that step.
- `isScout` is one of the trait predicates rather than being defined from `isInvisibleThreat` and `isFlyer`.
- `EnemyUnit` is a value snapshot: id, type, position and health. The updates the engine pushes into it are not modelled.
- Groups.ControlGroup.constructor: does not fix `lastStrategy`, because the C++ constructor leaves `_lastStrategy` uninitialised.
- TreeSearch.GetUnitPrereqs: requires the type to occur below the root, because otherwise `findPrereqNodes` returns an empty vector and `prereqs.erase(prereqs.begin())` on it is undefined behaviour (TechTree.cpp:264-265).
- Groups.ControlGroup.ValidateUnits: models the evident filter. The C++ erases from the set it is iterating over, which invalidates the loop's iterator; that undefined behaviour is not modelled. Unit validity is the parameter `live`.
- The exception that `updateTechTree` lets through leaves the sighting handlers early; the model reports it as `completed == false`. What the bot's event loop does with it is not part of this model.
- BuildMinimax.BuildSearch.PrereqObtained: requires the type to occur below the root, because the C++ dereferences the null parent otherwise.
- BuildMinimax.BuildSearch.GetParentType: requires the type to occur below the root, for the same reason.
- MinimaxTheory.MinimaxRestores: assumes every played move is undone exactly (`Restoring`). This fails for non-unique buildings (`MinimaxTheory.UndoLosesDuplicate`: the Protoss and Zerg Stargate and Citadel of Adun once the Cybernetics Core is obtained) and for unique buildings that also occur below an unobtained node (`MinimaxTheory.UniqueDuplicateUndoDoesNotRestore`: the Terran Armory once the Factory is obtained). `TreeUpdate.ApplyUndoRestores` gives a sufficient condition for one move.
- MinimaxTheory.AlphaBetaRestores: has the same `Restoring` hypothesis, which fails on the same template states.
- MinimaxTheory.MinimaxLoopBest: assumes `Restoring`, which fails on the template states named for `MinimaxRestores`. `MinimaxTheory.MinimaxLoopBestReached` states the loop's result without it, over the trees each pass actually starts from.
- MinimaxTheory.MinimaxChoosesBest: assumes `Restoring` likewise. `MinimaxTheory.MinimaxChoosesBestReached` is the statement without it.
- MinimaxTheory.AlphaBetaWindow: assumes `Restoring`. Without exact undo the pruned search skips the moves after a cut-off, so the moves it plays later are played on trees that differ from the plain search's, and no agreement is claimed.
- MinimaxTheory.MaxLoopWindow: assumes `Restoring`, as for `AlphaBetaWindow`.
- MinimaxTheory.MinLoopWindow: assumes `Restoring`, as for `AlphaBetaWindow`.
- MinimaxTheory.RootLoopAgrees: assumes `Restoring`, as for `AlphaBetaWindow`.
- MinimaxTheory.AlphaBetaMatchesMinimax: assumes `Restoring`, as for `AlphaBetaWindow`. It also requires the minimax score to be at most `INT_MAX`. Scores are unbounded in the model, and above `INT_MAX` the pruned search stops at the first reply reaching `INT_MAX` while minimax goes on; in the C++ a score is an `int` and cannot get there.
- NextBuildingTheory.NextBuildingIsChosenMove: assumes `Restoring`. Without exact undo `minimaxNextBuilding` diffs against a tree the search itself has changed, and no claim is made. It names the next building only when the search finds the chosen move as a unique, unobtained node (`FreshUnique`). For the non-unique Stargate and Citadel of Adun the play erases a copy, so the trees no longer have the same shape. It needs None only at the root of the first player's tree; `TechTemplates.BaseTreeNoneOnlyAtRoot` (which covers the null tree too), `NextBuildingTheory.RecordedNoneOnlyAtRoot` and `NextBuildingTheory.AlphaBetaKeepsNoneAtRoots` together show that every tree the bot holds has this property. It also requires the minimax score to be above `INT_MIN` and at most `INT_MAX`. At `INT_MIN` no reply beats the starting bound, the best tree stays the null tree and no move is named.
- The two static arrays in `BuildMinimax.h` are file-scoped globals. Each translation unit gets its own copy. The model gathers them into one `BuildSearch` object that the knowledge bank holds.
