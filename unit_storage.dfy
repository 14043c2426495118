/**
 * Unit storage: our completed units filed under a fixed set of categories
 * (every unit under ALL, and under each further category its type flags),
 * the refineries with their worker counts, and the queue of units created
 * but not yet complete.
 *
 * A unit is its engine identity with its type; the type's traits and the
 * engine's validity test are parameters.
 */
module Storage {
  import opened UnitTypes

  /** A unit of ours, as the engine hands it over. */
  datatype Unit = Unit(id: int, kind: UnitType)

  // The categories (`UnitCategories`), in declaration order.
  const ALL: int := 0
  const WORKER: int := 1
  const COMBAT: int := 2
  const SCOUT: int := 3
  const TRAINER: int := 4
  const UPGRADER: int := 5
  const RESEARCHER: int := 6
  const BASE: int := 7
  const NUM_CATEGORIES: int := 8

  /** `getCategories(type)`: which categories a unit of the type is filed
      under. A worker is never also a combat unit, and only buildings
      train, upgrade or research. */
  function Categories(tr: Traits, k: UnitType): (c: seq<bool>)
    ensures |c| == NUM_CATEGORIES
    ensures c[ALL]
    ensures !(c[WORKER] && c[COMBAT])
    ensures c[TRAINER] || c[UPGRADER] || c[RESEARCHER] ==> tr.isBuilding(k)
  {
    [ true,
      tr.isWorker(k),
      !tr.isWorker(k) && tr.canAttack(k),
      tr.isScout(k),
      tr.isBuilding(k) && tr.buildsSomething(k),
      tr.isBuilding(k) && tr.upgradesSomething(k),
      tr.isBuilding(k) && tr.researchesSomething(k),
      tr.isResourceDepot(k) ]
  }

  /** The loop of `getUnitsOfType` that picks the category to search: the
      highest flagged category at or below `i` other than ALL, or ALL when
      there is none. */
  function Highest(c: seq<bool>, i: int): (r: int)
    requires i < |c|
    ensures 0 <= r && (r <= i || r == 0)
    ensures r > 0 ==> c[r] && forall j :: r < j <= i ==> !c[j]
    ensures r == 0 ==> forall j :: 0 < j <= i ==> !c[j]
  {
    if i <= 0 then 0 else if c[i] then i else Highest(c, i - 1)
  }

  /** The category `getUnitsOfType` searches for a type. */
  function SearchCategory(tr: Traits, k: UnitType): (r: int)
    ensures 0 <= r < NUM_CATEGORIES && Categories(tr, k)[r]
  {
    Highest(Categories(tr, k), NUM_CATEGORIES - 1)
  }

  /** The members of `s` of type `k`. */
  function OfType(s: set<Unit>, k: UnitType): set<Unit>
  {
    set u | u in s && u.kind == k
  }

  /** The members of `s` that satisfy `pred`. */
  function Matching(s: set<Unit>, pred: Unit -> bool): set<Unit>
  {
    set u | u in s && pred(u)
  }

  function Max(a: int, b: int): int { if a < b then b else a }
  function Min(a: int, b: int): int { if a < b then a else b }

  /** Removing the unit at `i` by swapping it with the last one and
      popping the end (`iter_swap` and `erase`). */
  function SwapRemove(q: seq<Unit>, i: int): (r: seq<Unit>)
    requires 0 <= i < |q|
    ensures |r| == |q| - 1
  {
    q[i := q[|q| - 1]][..|q| - 1]
  }

  /** Only the removed unit leaves, and only the last unit moves: into the
      hole. */
  lemma SwapRemoveSpec(q: seq<Unit>, i: int)
    requires 0 <= i < |q|
    ensures multiset(SwapRemove(q, i)) == multiset(q) - multiset{q[i]}
    ensures forall j :: 0 <= j < |q| - 1 && j != i ==> SwapRemove(q, i)[j] == q[j]
    ensures i < |q| - 1 ==> SwapRemove(q, i)[i] == q[|q| - 1]
  {
    SwapRemoveBag(q, i);
  }

  lemma SwapRemoveBag(q: seq<Unit>, i: int)
    requires 0 <= i < |q|
    ensures multiset(SwapRemove(q, i)) + multiset{q[i]} == multiset(q)
  {
    var n := |q| - 1;
    var r := SwapRemove(q, i);
    if i == n {
      assert q == r + [q[i]];
    } else {
      var a, b := q[..i], q[i + 1..n];
      assert q == a + [q[i]] + b + [q[n]];
      assert r == a + [q[n]] + b;
    }
  }

  /** The index `std::find` stops at: the first occurrence, or the end. */
  function FirstIndex(q: seq<Unit>, u: Unit): (r: int)
    ensures 0 <= r <= |q|
    ensures r < |q| <==> u in q
    ensures r < |q| ==> q[r] == u
    ensures forall j :: 0 <= j < r ==> q[j] != u
  {
    if q == [] then 0
    else if q[0] == u then 0
    else 1 + FirstIndex(q[1..], u)
  }

  /** The queue after `removeFromQueue(unit)`. */
  function Dequeued(q: seq<Unit>, u: Unit): seq<Unit>
  {
    if u in q then SwapRemove(q, FirstIndex(q, u)) else q
  }

  /** Dequeuing takes out one occurrence of the unit and keeps everything
      else, as a multiset; an absent unit changes nothing. */
  lemma DequeuedSpec(q: seq<Unit>, u: Unit)
    ensures multiset(Dequeued(q, u)) == multiset(q) - multiset{u}
    ensures u !in q ==> Dequeued(q, u) == q
    ensures |Dequeued(q, u)| == if u in q then |q| - 1 else |q|
  {
    if u in q {
      SwapRemoveSpec(q, FirstIndex(q, u));
    } else {
      assert multiset(q)[u] == 0;
    }
  }

  /** A unit created and then completed leaves the queue as it was, up to
      order. */
  lemma CreateThenDequeue(q: seq<Unit>, u: Unit)
    ensures multiset(Dequeued(q + [u], u)) == multiset(q)
  {
    assert u in q + [u];
    DequeuedSpec(q + [u], u);
  }

  /** The loop shared by `getNUnitsOfType` and `getNUnitsOfCategory`: add
      the members of `s` that satisfy `pred`, in some order, and stop as
      soon as there are at least `n`. */
  method TakeN(s: set<Unit>, n: int, pred: Unit -> bool) returns (r: set<Unit>)
    ensures r <= Matching(s, pred)
    ensures |r| == Min(|Matching(s, pred)|, Max(n, 1))
  {
    r := {};
    var rest := s;
    while rest != {}
      invariant rest <= s
      invariant r == Matching(s - rest, pred)
      invariant |r| < Max(n, 1)
      decreases |rest|
    {
      var u :| u in rest;
      if pred(u) {
        assert u !in r;
        r := r + {u};
        assert Matching(s - (rest - {u}), pred) == r;
        if |r| >= n {
          assert |r| == Max(n, 1);
          MatchingGrows(s, s - (rest - {u}), pred);
          return;
        }
      } else {
        assert Matching(s - (rest - {u}), pred) == r;
      }
      rest := rest - {u};
    }
    assert s - rest == s;
  }

  lemma MatchingGrows(s: set<Unit>, t: set<Unit>, pred: Unit -> bool)
    requires t <= s
    ensures Matching(t, pred) <= Matching(s, pred)
    ensures |Matching(t, pred)| <= |Matching(s, pred)|
  {
    assert Matching(t, pred) <= Matching(s, pred);
    SubsetSize(Matching(t, pred), Matching(s, pred));
  }

  lemma SubsetSize(a: set<Unit>, b: set<Unit>)
    requires a <= b
    ensures |a| <= |b|
  {
    assert b == a + (b - a);
  }

  /** The first loop of `getUnitsOfType`: scan the categories downwards
      from the last and stop at the first flagged one; ALL when none is. */
  method PickCategory(c: seq<bool>) returns (r: int)
    requires |c| == NUM_CATEGORIES
    ensures r == Highest(c, NUM_CATEGORIES - 1)
  {
    r := 0;
    var i := NUM_CATEGORIES - 1;
    while i > 0
      invariant 0 <= i < NUM_CATEGORIES
      invariant Highest(c, NUM_CATEGORIES - 1) == Highest(c, i)
    {
      if c[i] {
        r := i;
        return;
      }
      i := i - 1;
    }
  }

  /** The second loop of `getUnitsOfType`: keep the members of `s` of
      type `k`. */
  method FilterType(s: set<Unit>, k: UnitType) returns (r: set<Unit>)
    ensures r == OfType(s, k)
  {
    r := {};
    var rest := s;
    while rest != {}
      invariant rest <= s
      invariant r == OfType(s - rest, k)
      decreases |rest|
    {
      var u :| u in rest;
      assert s - (rest - {u}) == (s - rest) + {u};
      OfTypeAdd(s - rest, u, k);
      if u.kind == k {
        r := r + {u};
      }
      rest := rest - {u};
    }
    assert s - rest == s;
  }

  lemma OfTypeAdd(t: set<Unit>, u: Unit, k: UnitType)
    ensures OfType(t + {u}, k) == OfType(t, k) + (if u.kind == k then {u} else {})
  {
  }

  /** Every unit in a category is also under ALL and its type flags that
      category, and every unit under ALL is in each category its type
      flags. */
  ghost predicate FiledSets(tr: Traits, s: seq<set<Unit>>)
    requires |s| == NUM_CATEGORIES
  {
    (forall i, u :: 0 <= i < NUM_CATEGORIES && u in s[i] ==> u in s[ALL] && Categories(tr, u.kind)[i]) &&
    (forall i, u :: 0 <= i < NUM_CATEGORIES && u in s[ALL] && Categories(tr, u.kind)[i] ==> u in s[i])
  }

  /** Filing a unit under its categories keeps the storage filed. */
  lemma FiledAdded(tr: Traits, before: seq<set<Unit>>, after: seq<set<Unit>>, u: Unit)
    requires |before| == |after| == NUM_CATEGORIES
    requires forall i :: 0 <= i < NUM_CATEGORIES ==>
      after[i] == if Categories(tr, u.kind)[i] then before[i] + {u} else before[i]
    ensures FiledSets(tr, before) ==> FiledSets(tr, after)
  {
  }

  /** Taking a unit out of its categories keeps the storage filed, and the
      unit is gone from it. */
  lemma FiledRemoved(tr: Traits, before: seq<set<Unit>>, after: seq<set<Unit>>, u: Unit)
    requires |before| == |after| == NUM_CATEGORIES
    requires forall i :: 0 <= i < NUM_CATEGORIES ==>
      after[i] == if Categories(tr, u.kind)[i] then before[i] - {u} else before[i]
    ensures FiledSets(tr, before) ==> FiledSets(tr, after) && u !in after[ALL]
  {
  }

  class UnitStorage {
    /** `_units`: one set per category. */
    const units: array<set<Unit>>
    var refineryUnits: seq<(Unit, int)>
    var queuedUnits: seq<Unit>
    const traits: Traits

    ghost predicate Valid()
    {
      units.Length == NUM_CATEGORIES
    }

    /** Every unit is filed under ALL and under exactly the categories its
        type flags: what `handleUnitComplete` sets up and
        `handleUnitDestroy` relies on. */
    ghost predicate Filed()
      reads units
      requires Valid()
    {
      FiledSets(traits, units[..])
    }

    constructor (traits: Traits)
      ensures Valid() && Filed() && this.traits == traits
      ensures forall i :: 0 <= i < NUM_CATEGORIES ==> units[i] == {}
      ensures refineryUnits == [] && queuedUnits == []
    {
      this.traits := traits;
      units := new set<Unit>[NUM_CATEGORIES](_ => {});
      refineryUnits := [];
      queuedUnits := [];
    }

    /** `getUnitsOfType(type)`: the units of the type filed under the
        category chosen by `SearchCategory`. */
    method GetUnitsOfType(k: UnitType) returns (r: set<Unit>)
      requires Valid()
      ensures r == OfType(units[SearchCategory(traits, k)], k)
    {
      var unitCategory := PickCategory(Categories(traits, k));
      r := FilterType(units[unitCategory], k);
    }

    /** While the storage is filed, searching one category finds every unit
        of the type. */
    lemma TypeSearchFindsAll(k: UnitType)
      requires Valid() && Filed()
      ensures OfType(units[SearchCategory(traits, k)], k) == OfType(units[ALL], k)
    {
    }

    /** `getNUnitsOfType(type, n, pred)`: units of the type that satisfy
        `pred`; with no guard on `n`, the first match is taken even when
        `n <= 0`. */
    method GetNUnitsOfType(k: UnitType, n: int, pred: Unit -> bool) returns (r: set<Unit>)
      requires Valid()
      ensures var all := Matching(OfType(units[SearchCategory(traits, k)], k), pred);
        r <= all && |r| == Min(|all|, Max(n, 1))
    {
      var ofType := GetUnitsOfType(k);
      r := TakeN(ofType, n, pred);
    }

    /** `getNUnitsOfCategory(category, n, pred)`: nothing when `n <= 0`,
        otherwise `n` units of the category that satisfy `pred`, or all of
        them when there are fewer. */
    method GetNUnitsOfCategory(category: int, n: int, pred: Unit -> bool) returns (r: set<Unit>)
      requires Valid() && 0 <= category < NUM_CATEGORIES
      ensures n <= 0 ==> r == {}
      ensures n > 0 ==> r <= Matching(units[category], pred) && |r| == Min(|Matching(units[category], pred)|, n)
    {
      if n <= 0 {
        r := {};
      } else {
        r := TakeN(units[category], n, pred);
      }
    }

    /** `handleUnitDestroy(unit)`: the unit leaves every category its type
        flags and no other. */
    method HandleUnitDestroy(u: Unit)
      requires Valid()
      modifies units
      ensures forall i :: 0 <= i < NUM_CATEGORIES ==>
        units[i] == if Categories(traits, u.kind)[i] then old(units[i]) - {u} else old(units[i])
      ensures old(Filed()) ==> Filed() && u !in units[ALL]
    {
      var categories := Categories(traits, u.kind);
      for i := 0 to NUM_CATEGORIES
        invariant forall j :: 0 <= j < i ==> units[j] == if categories[j] then old(units[j]) - {u} else old(units[j])
        invariant forall j :: i <= j < NUM_CATEGORIES ==> units[j] == old(units[j])
      {
        if categories[i] {
          units[i] := units[i] - {u};
        }
      }
      FiledRemoved(traits, old(units[..]), units[..], u);
    }

    /** `handleUnitComplete(unit)`: for a valid unit, take it off the queue,
        file it under every category its type flags, and list a refinery
        with no workers yet. `valid` is the engine's `isValidUnit`. */
    method HandleUnitComplete(u: Unit, valid: bool)
      requires Valid()
      modifies this, units
      ensures !valid ==> unchanged(this, units)
      ensures valid ==> queuedUnits == Dequeued(old(queuedUnits), u)
      ensures valid ==> forall i :: 0 <= i < NUM_CATEGORIES ==>
        units[i] == if Categories(traits, u.kind)[i] then old(units[i]) + {u} else old(units[i])
      ensures valid ==> refineryUnits == old(refineryUnits) + if traits.isRefinery(u.kind) then [(u, 0)] else []
      ensures old(Filed()) ==> Filed()
    {
      if valid {
        RemoveFromQueue(u);
        FileUnit(u);
        if traits.isRefinery(u.kind) {
          refineryUnits := refineryUnits + [(u, 0)];
        }
      }
    }

    /** The filing loop of `handleUnitComplete`: the unit joins every
        category its type flags. */
    method FileUnit(u: Unit)
      requires Valid()
      modifies units
      ensures forall i :: 0 <= i < NUM_CATEGORIES ==>
        units[i] == if Categories(traits, u.kind)[i] then old(units[i]) + {u} else old(units[i])
      ensures old(Filed()) ==> Filed()
    {
      var categories := Categories(traits, u.kind);
      for i := 0 to NUM_CATEGORIES
        invariant forall j :: 0 <= j < i ==> units[j] == if categories[j] then old(units[j]) + {u} else old(units[j])
        invariant forall j :: i <= j < NUM_CATEGORIES ==> units[j] == old(units[j])
      {
        if categories[i] {
          units[i] := units[i] + {u};
        }
      }
      FiledAdded(traits, old(units[..]), units[..], u);
    }

    /** `handleUnitCreate(unit)`: the unit joins the end of the queue. */
    method HandleUnitCreate(u: Unit)
      modifies this
      ensures queuedUnits == old(queuedUnits) + [u]
      ensures refineryUnits == old(refineryUnits)
    {
      queuedUnits := queuedUnits + [u];
    }

    /** The `std::find` over the queue. */
    method Find(u: Unit) returns (i: int)
      ensures i == FirstIndex(queuedUnits, u)
    {
      i := 0;
      while i < |queuedUnits| && queuedUnits[i] != u
        invariant 0 <= i <= |queuedUnits|
        invariant forall j :: 0 <= j < i ==> queuedUnits[j] != u
      {
        i := i + 1;
      }
      FirstIndexIs(queuedUnits, u, i);
    }

    /** `isInQueue(unit)`. */
    method IsInQueue(u: Unit) returns (b: bool)
      ensures b <==> u in queuedUnits
    {
      var i := Find(u);
      b := i != |queuedUnits|;
    }

    /** `isInQueue(type)`: is a unit of the type queued?  The queue holds
        no null units here, so the clean-up of null entries that runs first
        changes nothing. */
    method IsTypeInQueue(k: UnitType) returns (b: bool)
      ensures b <==> exists j :: 0 <= j < |queuedUnits| && queuedUnits[j].kind == k
    {
      var i := 0;
      while i < |queuedUnits|
        invariant 0 <= i <= |queuedUnits|
        invariant forall j :: 0 <= j < i ==> queuedUnits[j].kind != k
      {
        if queuedUnits[i].kind == k {
          return true;
        }
        i := i + 1;
      }
      b := false;
    }

    /** `getUnits(category)`: the units filed under the category. */
    method GetUnits(category: int) returns (r: set<Unit>)
      requires Valid() && 0 <= category < NUM_CATEGORIES
      ensures r == units[category]
    {
      r := units[category];
    }

    /** `getQueuedUnits()`: a copy of the queue. */
    method GetQueuedUnits() returns (r: seq<Unit>)
      ensures r == queuedUnits
    {
      r := queuedUnits;
    }

    /** `getRefineryUnits()`: the refineries with their worker counts. */
    method GetRefineryUnits() returns (r: seq<(Unit, int)>)
      ensures r == refineryUnits
    {
      r := refineryUnits;
    }

    /** `removeFromQueue(unit)`: swap the first occurrence with the last
        unit and pop it; an absent unit changes nothing. */
    method RemoveFromQueue(u: Unit)
      modifies this
      ensures queuedUnits == Dequeued(old(queuedUnits), u)
      ensures refineryUnits == old(refineryUnits)
    {
      var i := Find(u);
      if i != |queuedUnits| {
        var last := |queuedUnits| - 1;
        queuedUnits := queuedUnits[i := queuedUnits[last]][last := queuedUnits[i]];
        queuedUnits := queuedUnits[..last];
      }
    }

    /** `clearAll()`: every category emptied. */
    method ClearAll()
      requires Valid()
      modifies units
      ensures forall i :: 0 <= i < NUM_CATEGORIES ==> units[i] == {}
      ensures Filed()
    {
      for i := 0 to NUM_CATEGORIES
        invariant forall j :: 0 <= j < i ==> units[j] == {}
      {
        units[i] := {};
      }
    }
  }

  /** Any index with no earlier occurrence that is the end or holds the
      unit is the first index. */
  lemma {:induction false} FirstIndexIs(q: seq<Unit>, u: Unit, i: int)
    requires 0 <= i <= |q|
    requires forall j :: 0 <= j < i ==> q[j] != u
    requires i < |q| ==> q[i] == u
    ensures i == FirstIndex(q, u)
  {
    if q != [] && q[0] != u {
      FirstIndexIs(q[1..], u, i - 1);
    }
  }
}
