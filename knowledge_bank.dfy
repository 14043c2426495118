/**
 * The knowledge bank: how many tech buildings of each type each player has
 * been seen with, the enemy units seen so far, the enemy bases and the one
 * closest to home. Seeing a new tech building records it in that player's
 * tree of the build search and chooses the target again.
 *
 * The engine's answers (unit types' traits, distances, the player's own
 * units, a race) are parameters, and so is the order in which an unordered
 * map is walked.
 */
module Knowledge {
  import opened Wrappers
  import opened UnitTypes
  import opened Evaluation
  import opened BuildMinimax

  /** A map position; `Unknown` is the engine's "unknown position". */
  datatype Position = Known(x: int, y: int) | Unknown

  /** What is remembered about an enemy unit (`EnemyUnit`): its id, type,
      last known position and last known health. */
  datatype Enemy = Enemy(id: int, kind: UnitType, pos: Position, health: int)

  /** `NULL_ENEMY`, a default-constructed `EnemyUnit`: id `INT_MAX`, type
      Unknown, the default position (0, 0). Its health is never read. */
  const NULL_ENEMY: Enemy := Enemy(INT_MAX, UnknownType, Known(0, 0), 0)

  /** How much stronger the enemy must be before we stop fighting. */
  const ARMY_STRENGTH_BUFFER: int := 1000

  /** A tech unit: a resource depot, or a building that provides no
      supply. */
  predicate IsTech(tr: Traits, k: UnitType)
  {
    tr.isResourceDepot(k) || (tr.isBuilding(k) && tr.supplyProvided(k) <= 0)
  }

  // ------------------------------------------------------- tech counts

  /** `insertTech(type, map)`: a new type is counted once, a known one once
      more. Counts are never negative: the maps hold `nat`s. */
  function InsertTech(m: map<UnitType, nat>, k: UnitType): map<UnitType, nat>
  {
    if k !in m then m[k := 1] else m[k := m[k] + 1]
  }

  /** The count change of `handleMyUnitKilled`: one less, but only for a
      type already counted with a positive count. */
  function Decremented(m: map<UnitType, nat>, k: UnitType): map<UnitType, nat>
  {
    if k in m && m[k] > 0 then m[k := m[k] - 1] else m
  }

  /** Seeing a unit adds its type to the keys and counts it once more; no
      other count changes. */
  lemma InsertTechSpec(m: map<UnitType, nat>, k: UnitType)
    ensures InsertTech(m, k).Keys == m.Keys + {k}
    ensures InsertTech(m, k)[k] == (if k in m then m[k] + 1 else 1)
    ensures forall u :: u in m && u != k ==> InsertTech(m, k)[u] == m[u]
  {
  }

  /** Losing a unit takes one off a positive count and changes nothing
      else; a type not counted, or counted 0, is left alone. */
  lemma DecrementedSpec(m: map<UnitType, nat>, k: UnitType)
    ensures Decremented(m, k).Keys == m.Keys
    ensures k in m && m[k] > 0 ==> Decremented(m, k)[k] == m[k] - 1
    ensures forall u :: u in m && (u != k || m[u] == 0) ==> Decremented(m, k)[u] == m[u]
  {
  }

  /** Losing a unit undoes seeing it, when its type was already counted; for
      a type seen for the first time, the type stays behind with count 0. */
  lemma KilledUndoesInsert(m: map<UnitType, nat>, k: UnitType)
    ensures k in m ==> Decremented(InsertTech(m, k), k) == m
    ensures k !in m ==> Decremented(InsertTech(m, k), k) == m[k := 0] != m
  {
    if k !in m {
      assert k in m[k := 0];
    }
  }

  /** A tech unit seen for the first time: the player's counts, and the
      trees and target after the search's `updateTechTree`. */
  function TechNoted(counts: map<UnitType, nat>, k: UnitType, st: State, target: UnitType,
                     order: seq<UnitType>, player: Player, race: Race, sc: Scoring): (map<UnitType, nat>, State, UnitType)
  {
    var (trees, next) := Retargeted(Recorded(st, order, player, race, sc), target, sc);
    (InsertTech(counts, k), trees, next)
  }

  /** Whether `updateTechTree` returns normally once `order` is recorded
      in `player`'s tree: the lookup of the next building throws
      `out_of_range` when the best tree shows no difference. */
  function TechCompletes(st: State, order: seq<UnitType>, player: Player, race: Race, sc: Scoring): bool
  {
    NextBuilding(DEFAULT_DEPTH, Recorded(st, order, player, race, sc), sc).Ok?
  }

  // ------------------------------------------------ sums over the enemies

  /** Every listed id is a known enemy. */
  predicate Listed(ids: seq<int>, m: map<int, Enemy>)
  {
    forall i :: 0 <= i < |ids| ==> ids[i] in m
  }

  /** The army strength of the listed enemies: the sum of their types'
      static scores. */
  function Strength(ids: seq<int>, m: map<int, Enemy>, score: UnitType -> int): int
    requires Listed(ids, m)
  {
    if ids == [] then 0 else Strength(ids[..|ids| - 1], m, score) + score(m[ids[|ids| - 1]].kind)
  }

  lemma {:induction false} StrengthAppend(a: seq<int>, b: seq<int>, m: map<int, Enemy>, score: UnitType -> int)
    requires Listed(a, m) && Listed(b, m)
    ensures Listed(a + b, m)
    ensures Strength(a + b, m, score) == Strength(a, m, score) + Strength(b, m, score)
    decreases |b|
  {
    if b != [] {
      var n := |b| - 1;
      assert (a + b)[..|a + b| - 1] == a + b[..n];
      assert (a + b)[|a + b| - 1] == b[n];
      StrengthAppend(a, b[..n], m, score);
    } else {
      assert a + b == a;
    }
  }

  /** Taking one id out of the list takes its score out of the sum. */
  lemma StrengthRemove(s: seq<int>, j: int, m: map<int, Enemy>, score: UnitType -> int)
    requires Listed(s, m) && 0 <= j < |s|
    ensures Listed(s[..j] + s[j + 1..], m)
    ensures Strength(s, m, score) == Strength(s[..j] + s[j + 1..], m, score) + score(m[s[j]].kind)
  {
    var x := s[j];
    assert s == s[..j] + ([x] + s[j + 1..]);
    assert Listed(s[..j], m) && Listed(s[j + 1..], m) && Listed([x], m);
    StrengthAppend([x], s[j + 1..], m, score);
    StrengthAppend(s[..j], [x] + s[j + 1..], m, score);
    StrengthAppend(s[..j], s[j + 1..], m, score);
    assert Strength([x], m, score) == score(m[x].kind) by { assert [x][..0] == []; }
  }

  lemma MultisetRemove(s: seq<int>, j: int)
    requires 0 <= j < |s|
    ensures multiset(s[..j] + s[j + 1..]) == multiset(s) - multiset{s[j]}
  {
    assert s == s[..j] + [s[j]] + s[j + 1..];
  }

  /** The strength does not depend on the order the ids are visited in. */
  lemma {:induction false} StrengthPermutation(ids: seq<int>, ids': seq<int>, m: map<int, Enemy>, score: UnitType -> int)
    requires Listed(ids, m)
    requires multiset(ids) == multiset(ids')
    ensures Listed(ids', m)
    ensures Strength(ids, m, score) == Strength(ids', m, score)
    decreases |ids|
  {
    forall i | 0 <= i < |ids'| ensures ids'[i] in m {
      assert ids'[i] in multiset(ids);
      var k :| 0 <= k < |ids| && ids[k] == ids'[i];
    }
    if ids != [] {
      var n := |ids| - 1;
      var x := ids[n];
      assert x in multiset(ids');
      var j :| 0 <= j < |ids'| && ids'[j] == x;
      MultisetRemove(ids, n);
      MultisetRemove(ids', j);
      assert ids[..n] + ids[n + 1..] == ids[..n];
      StrengthRemove(ids', j, m, score);
      StrengthPermutation(ids[..n], ids'[..j] + ids'[j + 1..], m, score);
    }
  }

  /** Two enumerations of the same keys are permutations of each other. */
  lemma EnumerationsPermute<V>(ids: seq<int>, ids': seq<int>, m: map<int, V>)
    requires Enumerates(ids, m) && Enumerates(ids', m)
    ensures multiset(ids) == multiset(ids')
  {
    forall x ensures multiset(ids)[x] == multiset(ids')[x] {
      DistinctCount(ids, x);
      DistinctCount(ids', x);
    }
  }

  lemma {:induction false} DistinctCount(s: seq<int>, x: int)
    requires forall i, j :: 0 <= i < j < |s| ==> s[i] != s[j]
    ensures multiset(s)[x] == if x in s then 1 else 0
  {
    if s != [] {
      DistinctCount(s[1..], x);
      assert s == [s[0]] + s[1..];
      if x == s[0] {
        assert x !in s[1..];
      }
    }
  }

  /** The enemy's strength is the same whatever order the known enemies
      are visited in. */
  lemma StrengthOrderFree(ids: seq<int>, ids': seq<int>, m: map<int, Enemy>, score: UnitType -> int)
    requires Enumerates(ids, m) && Enumerates(ids', m)
    ensures Listed(ids, m) && Strength(ids, m, score) == Strength(ids', m, score)
  {
    EnumerationsPermute(ids, ids', m);
    StrengthPermutation(ids, ids', m, score);
  }

  /** The number of listed enemies of type `k`. */
  function Tally(ids: seq<int>, m: map<int, Enemy>, k: UnitType): int
    requires Listed(ids, m)
  {
    if ids == [] then 0
    else Tally(ids[..|ids| - 1], m, k) + (if m[ids[|ids| - 1]].kind == k then 1 else 0)
  }

  /** The listed enemies of type `k`. */
  ghost function OfKind(ids: seq<int>, m: map<int, Enemy>, k: UnitType): set<int>
  {
    set id | id in ids && id in m && m[id].kind == k
  }

  lemma OfKindSnoc(ids: seq<int>, x: int, m: map<int, Enemy>, k: UnitType)
    ensures OfKind(ids + [x], m, k) == OfKind(ids, m, k) + (if x in m && m[x].kind == k then {x} else {})
  {
  }

  /** The counting loop of `getNumberOfEnemiesOfType` over the known
      enemies. */
  method CountOfKind(ids: seq<int>, m: map<int, Enemy>, k: UnitType) returns (r: int)
    requires Listed(ids, m)
    ensures r == Tally(ids, m, k)
  {
    r := 0;
    var i := 0;
    while i < |ids|
      invariant 0 <= i <= |ids|
      invariant r == Tally(ids[..i], m, k)
    {
      assert ids[..i + 1][..i] == ids[..i];
      if m[ids[i]].kind == k {
        r := r + 1;
      }
      i := i + 1;
    }
    assert ids[..i] == ids;
  }

  lemma {:induction false} TallyPrefix(ids: seq<int>, m: map<int, Enemy>, k: UnitType)
    requires Listed(ids, m)
    requires forall i, j :: 0 <= i < j < |ids| ==> ids[i] != ids[j]
    ensures Tally(ids, m, k) == |OfKind(ids, m, k)|
    decreases |ids|
  {
    if ids != [] {
      var n := |ids| - 1;
      var x := ids[n];
      TallyPrefix(ids[..n], m, k);
      OfKindSnoc(ids[..n], x, m, k);
      assert ids[..n] + [x] == ids;
      assert x !in ids[..n] by {
        forall j | 0 <= j < n ensures ids[..n][j] != x {
          assert ids[j] != ids[n];
        }
      }
    }
  }

  /** Counting over an enumeration of the known enemies gives the number of
      known enemies of the type, whatever the order. */
  lemma TallyIsCount(ids: seq<int>, m: map<int, Enemy>, k: UnitType)
    requires Enumerates(ids, m)
    ensures Listed(ids, m) && Tally(ids, m, k) == |set id | id in m && m[id].kind == k|
  {
    TallyPrefix(ids, m, k);
    assert OfKind(ids, m, k) == set id | id in m && m[id].kind == k;
  }

  /** The army strength of a list of own units. */
  function ArmyScore(units: seq<UnitType>, score: UnitType -> int): int
  {
    if units == [] then 0 else ArmyScore(units[..|units| - 1], score) + score(units[|units| - 1])
  }

  // ------------------------------------------------------------- bases

  /** `remove_if` of the bases last seen with no health left; the order of
      the rest is kept. */
  function Alive(bases: seq<Enemy>): seq<Enemy>
  {
    if bases == [] then []
    else if bases[0].health <= 0 then Alive(bases[1..])
    else [bases[0]] + Alive(bases[1..])
  }

  lemma {:induction false} AliveMembers(bases: seq<Enemy>, b: Enemy)
    ensures |Alive(bases)| <= |bases|
    ensures b in Alive(bases) <==> b in bases && b.health > 0
  {
    if bases != [] {
      AliveMembers(bases[1..], b);
      assert bases == [bases[0]] + bases[1..];
    }
  }

  /** The loop of `updateClosestEnemyBase`: the base with the strictly
      smallest distance so far, and that distance, starting from
      `NULL_ENEMY` at `INT_MAX`. */
  function Nearest(bases: seq<Enemy>, distance: Position -> int): (Enemy, int)
  {
    if bases == [] then (NULL_ENEMY, INT_MAX)
    else
      var (best, d) := Nearest(bases[..|bases| - 1], distance);
      var last := bases[|bases| - 1];
      if distance(last.pos) < d then (last, distance(last.pos)) else (best, d)
  }

  /** Base `i` is nearer than `INT_MAX`, strictly nearer than every base
      before it, and no farther than every base after it. */
  ghost predicate FirstNearest(bases: seq<Enemy>, distance: Position -> int, i: int)
  {
    0 <= i < |bases| && distance(bases[i].pos) < INT_MAX &&
    (forall j :: 0 <= j < i ==> distance(bases[j].pos) > distance(bases[i].pos)) &&
    (forall j :: i < j < |bases| ==> distance(bases[j].pos) >= distance(bases[i].pos))
  }

  /** What `NearestSpec` says of the index `i` it picks: a negative index
      when the loop keeps `NULL_ENEMY` because no base is nearer than
      `INT_MAX`, otherwise the first nearest base. */
  ghost predicate PicksNearest(bases: seq<Enemy>, distance: Position -> int, i: int)
  {
    var (best, d) := Nearest(bases, distance);
    if i < 0 then (best, d) == (NULL_ENEMY, INT_MAX) && forall j :: 0 <= j < |bases| ==> distance(bases[j].pos) >= INT_MAX
    else FirstNearest(bases, distance, i) && best == bases[i] && d == distance(bases[i].pos)
  }

  /** The loop picks the first of the nearest bases, with its distance, or
      `NULL_ENEMY` when no base is nearer than `INT_MAX`; `i` is that
      base's index, or -1. */
  lemma {:induction false} NearestSpec(bases: seq<Enemy>, distance: Position -> int) returns (i: int)
    ensures PicksNearest(bases, distance, i)
    ensures i < 0 ==> Nearest(bases, distance) == (NULL_ENEMY, INT_MAX)
    ensures i >= 0 ==> 0 <= i < |bases| && Nearest(bases, distance) == (bases[i], distance(bases[i].pos))
    decreases |bases|
  {
    if bases == [] {
      i := -1;
    } else {
      var n := |bases| - 1;
      var k := NearestSpec(bases[..n], distance);
      i := NearestStep(bases, distance, k);
    }
  }

  /** One more base: it is picked when strictly nearer than the pick so
      far. */
  lemma NearestStep(bases: seq<Enemy>, distance: Position -> int, k: int) returns (i: int)
    requires bases != [] && PicksNearest(bases[..|bases| - 1], distance, k)
    ensures PicksNearest(bases, distance, i)
  {
    var n := |bases| - 1;
    var prefix := bases[..n];
    var (best, d) := Nearest(prefix, distance);
    assert forall j :: 0 <= j < n ==> bases[j] == prefix[j];
    if distance(bases[n].pos) < d {
      i := n;
      if k >= 0 {
        assert forall j :: 0 <= j < n ==> distance(bases[j].pos) >= d;
      }
    } else {
      i := k;
    }
  }

  /** The loop of `handleEnemyUnitKilled` over the bases: a base with the
      id is erased and the index still moves on, so the base that slides
      into its place is not looked at. */
  function ErasedById(bases: seq<Enemy>, id: int): seq<Enemy>
  {
    if bases == [] then []
    else if bases[0].id != id then [bases[0]] + ErasedById(bases[1..], id)
    else if |bases| == 1 then []
    else [bases[1]] + ErasedById(bases[2..], id)
  }

  /** When no two bases share an id, the loop erases exactly the bases with
      the id, keeping the others in order. */
  lemma {:induction false} ErasedByIdDistinct(bases: seq<Enemy>, id: int)
    requires forall i, j :: 0 <= i < j < |bases| ==> bases[i].id != bases[j].id
    ensures ErasedById(bases, id) == WithoutId(bases, id)
  {
    if bases != [] {
      ErasedByIdDistinct(bases[1..], id);
      if bases[0].id == id && |bases| > 1 {
        assert bases[1].id != id;
        ErasedByIdDistinct(bases[2..], id);
        assert bases[1..][1..] == bases[2..];
      }
      if bases[0].id == id && |bases| == 1 {
        assert WithoutId(bases[1..], id) == [];
      }
    }
  }

  /** The bases without those with the id. */
  function WithoutId(bases: seq<Enemy>, id: int): seq<Enemy>
  {
    if bases == [] then []
    else if bases[0].id != id then [bases[0]] + WithoutId(bases[1..], id)
    else WithoutId(bases[1..], id)
  }

  /** Two adjacent bases with the same id: the loop keeps the second. */
  lemma ErasedByIdSkips(a: Enemy, b: Enemy)
    requires a.id == b.id
    ensures ErasedById([a, b], a.id) == [b] && WithoutId([a, b], a.id) == []
  {
    assert ErasedById([], a.id) == [] && WithoutId([], a.id) == [];
    assert [b][1..] == [];
    assert [a, b][1..] == [b];
    assert [a, b][2..] == [];
  }

  // ------------------------------------------------------ the knowledge bank

  class KnowledgeBank {
    var knownEnemies: map<int, Enemy>
    var enemyTech: map<UnitType, nat>
    var myTech: map<UnitType, nat>
    var enemyBases: seq<Enemy>
    var closestEnemyBase: Position
    /** The build search whose trees the tech counts feed. */
    const search: BuildSearch
    const traits: Traits

    /** The search's trees are well formed, and the search and the bank
        agree on which types are buildings. */
    ghost predicate Valid()
    {
      search.Valid() && forall k :: traits.isBuilding(k) == search.scoring.isBuilding(k)
    }

    /** Nothing known yet; the closest base is the unknown position. */
    constructor (search: BuildSearch, traits: Traits)
      requires search.Valid() && forall k :: traits.isBuilding(k) == search.scoring.isBuilding(k)
      ensures Valid() && this.search == search && this.traits == traits
      ensures knownEnemies == map[] && enemyTech == map[] && myTech == map[]
      ensures enemyBases == [] && closestEnemyBase == Unknown
    {
      this.search := search;
      this.traits := traits;
      knownEnemies := map[];
      enemyTech := map[];
      myTech := map[];
      enemyBases := [];
      closestEnemyBase := Unknown;
    }

    /** `handleMyUnitFirstSighting(unit)`: a tech unit is counted and our
        tree is brought up to date (`order` is the new map's iteration
        order, `race` our race); anything else changes nothing.
        `completed` is false when the tree update throws. */
    method HandleMyUnitFirstSighting(k: UnitType, order: seq<UnitType>, race: Race) returns (completed: bool)
      requires Valid()
      requires IsTech(traits, k) ==> Enumerates(order, InsertTech(myTech, k))
      modifies this, search, search.gameTreeState
      ensures Valid()
      ensures (knownEnemies, enemyTech, enemyBases, closestEnemyBase) ==
        old((knownEnemies, enemyTech, enemyBases, closestEnemyBase))
      ensures (myTech, search.Trees(), search.targetTech) ==
        if IsTech(traits, k) then TechNoted(old(myTech), k, old(search.Trees()), old(search.targetTech), order, SELF, race, search.scoring)
        else old((myTech, search.Trees(), search.targetTech))
      ensures completed == (!IsTech(traits, k) || TechCompletes(old(search.Trees()), order, SELF, race, search.scoring))
    {
      completed := true;
      if IsTech(traits, k) {
        myTech := InsertTech(myTech, k);
        var r := search.UpdateTechTree(myTech, order, SELF, race);
        completed := r.Ok?;
      }
    }

    /** `handleMyUnitKilled(unit)`: one less of a counted type with a
        positive count. */
    method HandleMyUnitKilled(k: UnitType)
      requires Valid()
      modifies this
      ensures Valid()
      ensures myTech == Decremented(old(myTech), k)
      ensures knownEnemies == old(knownEnemies) && enemyTech == old(enemyTech)
      ensures enemyBases == old(enemyBases) && closestEnemyBase == old(closestEnemyBase)
    {
      if k in myTech && myTech[k] > 0 {
        myTech := myTech[k := myTech[k] - 1];
      }
    }

    /** `handleEnemyUnitFirstSighting(enemy)`: a depot joins the bases and
        the closest base is chosen again; a tech unit is counted and the
        enemy's tree is brought up to date; the enemy is remembered unless
        its id already is (`insert` does not overwrite). When the tree
        update throws, the call stops there (`completed` is false) and the
        enemy is not remembered. */
    method HandleEnemyUnitFirstSighting(e: Enemy, order: seq<UnitType>, race: Race, distance: Position -> int)
      returns (completed: bool)
      requires Valid()
      requires IsTech(traits, e.kind) ==> Enumerates(order, InsertTech(enemyTech, e.kind))
      modifies this, search, search.gameTreeState
      ensures Valid()
      ensures myTech == old(myTech)
      ensures traits.isResourceDepot(e.kind) ==>
        enemyBases == Alive(old(enemyBases) + [e]) && closestEnemyBase == Nearest(enemyBases, distance).0.pos
      ensures !traits.isResourceDepot(e.kind) ==>
        enemyBases == old(enemyBases) && closestEnemyBase == old(closestEnemyBase)
      ensures (enemyTech, search.Trees(), search.targetTech) ==
        if IsTech(traits, e.kind) then TechNoted(old(enemyTech), e.kind, old(search.Trees()), old(search.targetTech), order, ENEMY, race, search.scoring)
        else old((enemyTech, search.Trees(), search.targetTech))
      ensures completed == (!IsTech(traits, e.kind) || TechCompletes(old(search.Trees()), order, ENEMY, race, search.scoring))
      ensures knownEnemies == if !completed || e.id in old(knownEnemies) then old(knownEnemies) else old(knownEnemies)[e.id := e]
    {
      NoteEnemyBase(e, distance);
      completed := NoteEnemyTech(e.kind, order, race);
      if completed && e.id !in knownEnemies {
        knownEnemies := knownEnemies[e.id := e];
      }
    }

    /** The depot step of `handleEnemyUnitFirstSighting`. */
    method NoteEnemyBase(e: Enemy, distance: Position -> int)
      modifies this
      ensures traits.isResourceDepot(e.kind) ==>
        enemyBases == Alive(old(enemyBases) + [e]) && closestEnemyBase == Nearest(enemyBases, distance).0.pos
      ensures !traits.isResourceDepot(e.kind) ==>
        enemyBases == old(enemyBases) && closestEnemyBase == old(closestEnemyBase)
      ensures knownEnemies == old(knownEnemies) && myTech == old(myTech) && enemyTech == old(enemyTech)
    {
      if traits.isResourceDepot(e.kind) {
        enemyBases := enemyBases + [e];
        UpdateClosestEnemyBase(distance);
      }
    }

    /** The tech step of `handleEnemyUnitFirstSighting`; `completed` is
        false when `updateTechTree` throws. */
    method NoteEnemyTech(k: UnitType, order: seq<UnitType>, race: Race) returns (completed: bool)
      requires Valid()
      requires IsTech(traits, k) ==> Enumerates(order, InsertTech(enemyTech, k))
      modifies this, search, search.gameTreeState
      ensures Valid()
      ensures (knownEnemies, myTech, enemyBases, closestEnemyBase) ==
        old((knownEnemies, myTech, enemyBases, closestEnemyBase))
      ensures (enemyTech, search.Trees(), search.targetTech) ==
        if IsTech(traits, k) then TechNoted(old(enemyTech), k, old(search.Trees()), old(search.targetTech), order, ENEMY, race, search.scoring)
        else old((enemyTech, search.Trees(), search.targetTech))
      ensures completed == (!IsTech(traits, k) || TechCompletes(old(search.Trees()), order, ENEMY, race, search.scoring))
    {
      completed := true;
      if IsTech(traits, k) {
        enemyTech := InsertTech(enemyTech, k);
        var r := search.UpdateTechTree(enemyTech, order, ENEMY, race);
        completed := r.Ok?;
      }
    }

    /** `handleEnemyUnitKilled(enemy)`: a depot's entries leave the bases
        (see `ErasedById`) and the closest base is chosen again; the enemy
        is forgotten. */
    method HandleEnemyUnitKilled(e: Enemy, distance: Position -> int)
      requires Valid()
      modifies this
      ensures Valid()
      ensures myTech == old(myTech) && enemyTech == old(enemyTech)
      ensures traits.isResourceDepot(e.kind) ==>
        enemyBases == Alive(ErasedById(old(enemyBases), e.id)) && closestEnemyBase == Nearest(enemyBases, distance).0.pos
      ensures !traits.isResourceDepot(e.kind) ==>
        enemyBases == old(enemyBases) && closestEnemyBase == old(closestEnemyBase)
      ensures knownEnemies == old(knownEnemies) - {e.id}
    {
      if traits.isResourceDepot(e.kind) {
        enemyBases := EraseById(enemyBases, e.id);
        UpdateClosestEnemyBase(distance);
      }
      knownEnemies := knownEnemies - {e.id};
    }

    /** `updateClosestEnemyBase()`: drop the dead bases, then take the
        position of the first nearest one (`NULL_ENEMY`'s when none is
        nearer than `INT_MAX`). */
    method UpdateClosestEnemyBase(distance: Position -> int)
      modifies this
      ensures enemyBases == Alive(old(enemyBases))
      ensures closestEnemyBase == Nearest(enemyBases, distance).0.pos
      ensures knownEnemies == old(knownEnemies) && myTech == old(myTech) && enemyTech == old(enemyTech)
    {
      enemyBases := Alive(enemyBases);
      var smallestDistance := INT_MAX;
      var closestBase := NULL_ENEMY;
      var i := 0;
      while i < |enemyBases|
        invariant 0 <= i <= |enemyBases|
        invariant (closestBase, smallestDistance) == Nearest(enemyBases[..i], distance)
      {
        assert enemyBases[..i + 1][..i] == enemyBases[..i];
        var d := distance(enemyBases[i].pos);
        if d < smallestDistance {
          smallestDistance := d;
          closestBase := enemyBases[i];
        }
        i := i + 1;
      }
      assert enemyBases[..i] == enemyBases;
      closestEnemyBase := closestBase.pos;
    }

    /** `getNumberOfEnemiesOfType(type)`: a building type's count (reading
        an absent type with `operator[]` adds it with count 0); for any
        other type, how many known enemies have it (`ids` is the order the
        known enemies are visited in). */
    method GetNumberOfEnemiesOfType(k: UnitType, ids: seq<int>) returns (r: int)
      requires Valid()
      requires !traits.isBuilding(k) ==> Enumerates(ids, knownEnemies)
      modifies this
      ensures Valid()
      ensures knownEnemies == old(knownEnemies) && myTech == old(myTech)
      ensures traits.isBuilding(k) ==>
        enemyTech == (if k in old(enemyTech) then old(enemyTech) else old(enemyTech)[k := 0]) && r == enemyTech[k]
      ensures !traits.isBuilding(k) ==> enemyTech == old(enemyTech) && r == Tally(ids, knownEnemies, k)
      ensures enemyBases == old(enemyBases) && closestEnemyBase == old(closestEnemyBase)
    {
      if traits.isBuilding(k) {
        if k !in enemyTech {
          enemyTech := enemyTech[k := 0];
        }
        r := enemyTech[k];
      } else {
        r := CountOfKind(ids, knownEnemies, k);
      }
    }

    /** `evaluateEnemyArmyStrength()`: the static scores of the known
        enemies, visited in the order `ids`. */
    method EvaluateEnemyArmyStrength(ids: seq<int>) returns (eval: int)
      requires Valid() && Enumerates(ids, knownEnemies)
      ensures eval == Strength(ids, knownEnemies, search.scoring.unitScore)
    {
      eval := 0;
      var i := 0;
      while i < |ids|
        invariant 0 <= i <= |ids|
        invariant eval == Strength(ids[..i], knownEnemies, search.scoring.unitScore)
      {
        assert ids[..i + 1][..i] == ids[..i];
        eval := eval + search.scoring.unitScore(knownEnemies[ids[i]].kind);
        i := i + 1;
      }
      assert ids[..i] == ids;
    }

    /** `evaluateMyArmyStrength()`: the static scores of our own units, as
        the engine lists them. */
    method EvaluateMyArmyStrength(myUnits: seq<UnitType>) returns (eval: int)
      ensures eval == ArmyScore(myUnits, search.scoring.unitScore)
    {
      eval := 0;
      var i := 0;
      while i < |myUnits|
        invariant 0 <= i <= |myUnits|
        invariant eval == ArmyScore(myUnits[..i], search.scoring.unitScore)
      {
        assert myUnits[..i + 1][..i] == myUnits[..i];
        eval := eval + search.scoring.unitScore(myUnits[i]);
        i := i + 1;
      }
      assert myUnits[..i] == myUnits;
    }

    /** `shouldNotFight()`: the enemy is stronger than we are by more than
        the buffer. */
    method ShouldNotFight(ids: seq<int>, myUnits: seq<UnitType>) returns (r: bool)
      requires Valid() && Enumerates(ids, knownEnemies)
      ensures r <==> Strength(ids, knownEnemies, search.scoring.unitScore) >
                     ArmyScore(myUnits, search.scoring.unitScore) + ARMY_STRENGTH_BUFFER
    {
      var enemy := EvaluateEnemyArmyStrength(ids);
      var mine := EvaluateMyArmyStrength(myUnits);
      r := enemy > mine + ARMY_STRENGTH_BUFFER;
    }

    /** `getEnemyDataByID(id)`: `at` throws for an id never seen. */
    method GetEnemyDataById(id: int) returns (r: Result<Enemy>)
      ensures r.Ok? <==> id in knownEnemies
      ensures r.Ok? ==> r.value == knownEnemies[id] && r.value in knownEnemies.Values
    {
      if id in knownEnemies {
        r := Ok(knownEnemies[id]);
      } else {
        r := OutOfRange;
      }
    }

    /** `getEnemyTech()`: a copy of the enemy's tech counts. */
    method GetEnemyTech() returns (r: map<UnitType, nat>)
      ensures r == enemyTech
    {
      r := enemyTech;
    }

    /** `getMyTech()`: a copy of our own tech counts. */
    method GetMyTech() returns (r: map<UnitType, nat>)
      ensures r == myTech
    {
      r := myTech;
    }
  }

  /** The loop of `handleEnemyUnitKilled` over the bases: an erased
      entry hands its place to the next one, which the loop's increment
      then steps over. */
  method EraseById(bases0: seq<Enemy>, id: int) returns (bases: seq<Enemy>)
    ensures bases == ErasedById(bases0, id)
  {
    bases := bases0;
    var i := 0;
    while i < |bases|
      invariant 0 <= i <= |bases| + 1
      invariant i <= |bases| ==> ErasedById(bases0, id) == bases[..i] + ErasedById(bases[i..], id)
      invariant i > |bases| ==> ErasedById(bases0, id) == bases
      decreases |bases| + 1 - i
    {
      if bases[i].id == id {
        EraseStep(bases, i, id);
        bases := bases[..i] + bases[i + 1..];
      } else {
        KeepStep(bases, i, id);
      }
      i := i + 1;
    }
    if i <= |bases| {
      assert bases[..i] == bases && bases[i..] == [];
      assert ErasedById([], id) == [];
    }
  }

  /** One pass of the loop in `handleEnemyUnitKilled` that keeps a base. */
  lemma KeepStep(bases: seq<Enemy>, i: int, id: int)
    requires 0 <= i < |bases| && bases[i].id != id
    ensures bases[..i] + ErasedById(bases[i..], id) == bases[..i + 1] + ErasedById(bases[i + 1..], id)
  {
    assert bases[i..][1..] == bases[i + 1..];
    assert bases[..i + 1] == bases[..i] + [bases[i]];
  }

  /** One erasing pass of the loop in `handleEnemyUnitKilled`. */
  lemma EraseStep(bases: seq<Enemy>, i: int, id: int)
    requires 0 <= i < |bases| && bases[i].id == id
    ensures var after := bases[..i] + bases[i + 1..];
      (i + 1 <= |after| ==> bases[..i] + ErasedById(bases[i..], id) == after[..i + 1] + ErasedById(after[i + 1..], id)) &&
      (i + 1 > |after| ==> bases[..i] + ErasedById(bases[i..], id) == after)
  {
    var after := bases[..i] + bases[i + 1..];
    var tail := bases[i..];
    if i + 1 < |bases| {
      assert tail[1] == bases[i + 1] && tail[2..] == bases[i + 2..];
      assert after[..i + 1] == bases[..i] + [bases[i + 1]];
      assert after[i + 1..] == bases[i + 2..];
    } else {
      assert tail == [bases[i]];
      assert after == bases[..i];
    }
  }
}
