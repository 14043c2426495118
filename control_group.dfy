/**
 * A control group: a set of units with a strategy flag and the flag it
 * had before. An update turns an all-in attack into a retreat when the
 * knowledge bank advises against fighting, and turns that retreat back into
 * an attack once the advice lifts; a retreat ordered from outside is
 * never lifted by an update. The orders the group's units receive are
 * engine calls and are not part of this model.
 */
module Groups {
  import opened UnitTypes
  import opened Storage

  /** The strategy flags (`Flag`). */
  datatype Flag = NONE | ALL_IN | INVADE | CLEAR_AREA | RETREAT | DEFEND_BASE | SCOUT_ENEMY | SCOUT_RESOURCES

  /** The flag pair an `update` leaves, given the current flag, the last
      one and the knowledge bank's `shouldNotFight()`. */
  function Updated(current: Flag, last: Flag, shouldNotFight: bool): (Flag, Flag)
  {
    match current
    case ALL_IN => if shouldNotFight then (RETREAT, ALL_IN) else (ALL_IN, last)
    case RETREAT => if !shouldNotFight && last == ALL_IN then (ALL_IN, RETREAT) else (RETREAT, last)
    case _ => (current, last)
  }

  /** The transitions of one update: all-in falls back exactly when the
      advice is against fighting; a retreat resumes the attack exactly
      when the advice lifts and the retreat came from an all-in; every
      other flag stays, and so does the last flag whenever the current one
      does. */
  lemma UpdatedTransitions(current: Flag, last: Flag, shouldNotFight: bool)
    ensures var (c, l) := Updated(current, last, shouldNotFight);
      (current == ALL_IN ==> (c == RETREAT <==> shouldNotFight) && (c == RETREAT ==> l == ALL_IN)) &&
      (current == RETREAT ==> (c == ALL_IN <==> !shouldNotFight && last == ALL_IN) && (c == ALL_IN ==> l == RETREAT)) &&
      (current != ALL_IN && current != RETREAT ==> c == current) &&
      (c == current ==> l == last) &&
      (c == ALL_IN || c == RETREAT <==> current == ALL_IN || current == RETREAT)
  {
  }

  /** The flag pair after a run of updates, one per piece of advice. */
  function Run(current: Flag, last: Flag, advice: seq<bool>): (Flag, Flag)
    decreases |advice|
  {
    if advice == [] then (current, last)
    else
      var (c, l) := Updated(current, last, advice[0]);
      Run(c, l, advice[1..])
  }

  /** A retreat ordered from outside (not from an all-in) lasts through
      every run of updates. */
  lemma {:induction false} ImposedRetreatLasts(last: Flag, advice: seq<bool>)
    requires last != ALL_IN
    ensures Run(RETREAT, last, advice) == (RETREAT, last)
  {
    if advice != [] {
      ImposedRetreatLasts(last, advice[1..]);
    }
  }

  /** A group that started all-in is all-in or retreating from an all-in
      after any run of updates, and all-in when the last advice was to
      fight. */
  lemma {:induction false} AllInRuns(last: Flag, advice: seq<bool>)
    requires |advice| > 0 || last == ALL_IN
    ensures var (c, l) := Run(ALL_IN, last, advice);
      (c == ALL_IN || (c == RETREAT && l == ALL_IN)) &&
      (advice != [] ==> (c == ALL_IN <==> !advice[|advice| - 1]))
    decreases |advice|
  {
    if advice != [] {
      var (c, l) := Updated(ALL_IN, last, advice[0]);
      if advice[1..] != [] {
        if c == ALL_IN {
          AllInRuns(l, advice[1..]);
        } else {
          RetreatRuns(advice[1..]);
        }
        assert advice[1..][|advice[1..]| - 1] == advice[|advice| - 1];
      }
    }
  }

  lemma {:induction false} RetreatRuns(advice: seq<bool>)
    requires advice != []
    ensures var (c, l) := Run(RETREAT, ALL_IN, advice);
      (c == ALL_IN || (c == RETREAT && l == ALL_IN)) && (c == ALL_IN <==> !advice[|advice| - 1])
    decreases |advice|
  {
    var (c, l) := Updated(RETREAT, ALL_IN, advice[0]);
    if advice[1..] != [] {
      if c == ALL_IN {
        AllInRuns(l, advice[1..]);
      } else {
        RetreatRuns(advice[1..]);
      }
      assert advice[1..][|advice[1..]| - 1] == advice[|advice| - 1];
    }
  }

  /** A unit `validateUnits` keeps: of a known type and reported live by
      the engine. */
  predicate Usable(u: Unit, live: Unit -> bool)
  {
    u.kind != UnknownType && live(u)
  }

  class ControlGroup {
    var controlUnits: set<Unit>
    var currentStrategy: Flag
    var lastStrategy: Flag

    /** The group holds the given units under the given flag; the last flag
        is left unset. */
    constructor (units: set<Unit>, flag: Flag)
      ensures controlUnits == units && currentStrategy == flag
    {
      controlUnits := units;
      currentStrategy := flag;
    }

    /** `operator==`: groups are equal when their units are, whatever their
        flags. */
    method Equals(other: ControlGroup) returns (b: bool)
      ensures b <==> controlUnits == other.controlUnits
    {
      b := other.controlUnits == controlUnits;
    }

    /** `getFlag()`. */
    method GetFlag() returns (f: Flag)
      ensures f == currentStrategy
    {
      f := currentStrategy;
    }

    /** `overrideFlag(flag)`: the current flag becomes the last one. */
    method OverrideFlag(flag: Flag)
      modifies this
      ensures currentStrategy == flag && lastStrategy == old(currentStrategy)
      ensures controlUnits == old(controlUnits)
    {
      lastStrategy := currentStrategy;
      currentStrategy := flag;
    }

    /** `validateUnits()`: the units whose type is unknown, or that the
        engine reports gone (`live` is false: no unit, an invalid position,
        no longer existing, or no hit points left), leave the group. */
    method ValidateUnits(live: Unit -> bool)
      modifies this
      ensures controlUnits == set u | u in old(controlUnits) && Usable(u, live)
      ensures currentStrategy == old(currentStrategy) && lastStrategy == old(lastStrategy)
    {
      var rest := controlUnits;
      while rest != {}
        invariant rest <= old(controlUnits)
        invariant controlUnits == (set u | u in old(controlUnits) - rest && Usable(u, live)) + rest
        invariant currentStrategy == old(currentStrategy) && lastStrategy == old(lastStrategy)
        decreases |rest|
      {
        var u :| u in rest;
        if !Usable(u, live) {
          controlUnits := controlUnits - {u};
        }
        rest := rest - {u};
      }
    }

    /** `update(knowledgeBank)`: the group drops the units that are gone,
        then changes its flags as `Updated` says, given the knowledge
        bank's `shouldNotFight()`. */
    method Update(shouldNotFight: bool, live: Unit -> bool)
      modifies this
      ensures (currentStrategy, lastStrategy) == Updated(old(currentStrategy), old(lastStrategy), shouldNotFight)
      ensures controlUnits == set u | u in old(controlUnits) && Usable(u, live)
    {
      ValidateUnits(live);
      match currentStrategy
      case ALL_IN =>
        if shouldNotFight {
          OverrideFlag(RETREAT);
        }
      case RETREAT =>
        if !shouldNotFight && lastStrategy == ALL_IN {
          OverrideFlag(ALL_IN);
        }
      case _ =>
    }

    /** `addUnit(unit)`. */
    method AddUnit(u: Unit)
      modifies this
      ensures controlUnits == old(controlUnits) + {u}
      ensures currentStrategy == old(currentStrategy) && lastStrategy == old(lastStrategy)
    {
      controlUnits := controlUnits + {u};
    }

    /** `addUnits(units)`: one unit at a time. */
    method AddUnits(units: set<Unit>)
      modifies this
      ensures controlUnits == old(controlUnits) + units
      ensures currentStrategy == old(currentStrategy) && lastStrategy == old(lastStrategy)
    {
      var rest := units;
      while rest != {}
        invariant rest <= units
        invariant controlUnits == old(controlUnits) + (units - rest)
        invariant currentStrategy == old(currentStrategy) && lastStrategy == old(lastStrategy)
        decreases |rest|
      {
        var u :| u in rest;
        AddUnit(u);
        rest := rest - {u};
      }
    }

    /** `removeUnit(unit)`. */
    method RemoveUnit(u: Unit)
      modifies this
      ensures controlUnits == old(controlUnits) - {u}
      ensures currentStrategy == old(currentStrategy) && lastStrategy == old(lastStrategy)
    {
      controlUnits := controlUnits - {u};
    }

    /** `removeUnits(units)`: one unit at a time. */
    method RemoveUnits(units: set<Unit>)
      modifies this
      ensures controlUnits == old(controlUnits) - units
      ensures currentStrategy == old(currentStrategy) && lastStrategy == old(lastStrategy)
    {
      var rest := units;
      while rest != {}
        invariant rest <= units
        invariant controlUnits == old(controlUnits) - (units - rest)
        invariant currentStrategy == old(currentStrategy) && lastStrategy == old(lastStrategy)
        decreases |rest|
      {
        var u :| u in rest;
        RemoveUnit(u);
        rest := rest - {u};
      }
    }

    /** `setControlGroup(units)`: the units are replaced, the flags kept. */
    method SetControlGroup(units: set<Unit>)
      modifies this
      ensures controlUnits == units
      ensures currentStrategy == old(currentStrategy) && lastStrategy == old(lastStrategy)
    {
      controlUnits := units;
    }
  }
}
