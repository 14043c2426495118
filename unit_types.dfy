/**
 * The unit-type vocabulary the technology trees are built from, the races,
 * and the engine's per-type predicates, which the model keeps uninterpreted.
 */
module UnitTypes {

  /** The unit types that occur in the race templates, the engine's `None`
      and `Unknown` sentinels, and every other engine type by its id. */
  datatype UnitType =
    | NoneType | UnknownType
    // Protoss
    | ProtossNexus | ProtossGateway | ProtossCyberneticsCore | ProtossDragoon
    | ProtossRoboticsFacility | ProtossRoboticsSupportBay | ProtossReaver
    | ProtossObservatory | ProtossObserver | ProtossShuttle
    | ProtossStargate | ProtossFleetBeacon | ProtossCitadelOfAdun
    | ProtossTemplarArchives | ProtossHighTemplar | ProtossDarkTemplar
    | ProtossArchon | ProtossDarkArchon | ProtossArbiterTribunal | ProtossArbiter
    | ProtossCarrier | ProtossScout | ProtossCorsair | ProtossZealot
    | ProtossShieldBattery | ProtossForge | ProtossPhotonCannon | ProtossProbe
    | ProtossPylon | ProtossAssimilator
    // Terran
    | TerranCommandCenter | TerranBarracks | TerranFactory | TerranStarport
    | TerranScienceFacility | TerranPhysicsLab | TerranCovertOps
    | TerranControlTower | TerranDropship | TerranArmory | TerranValkyrie
    | TerranWraith | TerranAcademy | TerranFirebat | TerranMedic
    | TerranComsatStation | TerranGoliath | TerranVulture | TerranBunker
    | TerranMarine | TerranEngineeringBay | TerranMissileTurret | TerranSCV
    | TerranSupplyDepot | TerranRefinery
    | Other(id: int)

  datatype Race = Protoss | Terran | Zerg | UnknownRace

  /** The engine's static knowledge about unit types (BWAPI's UnitType
      queries), supplied from outside and never interpreted here. */
  datatype Traits = Traits(
    isBuilding: UnitType -> bool,
    isResourceDepot: UnitType -> bool,
    supplyProvided: UnitType -> int,
    isWorker: UnitType -> bool,
    canAttack: UnitType -> bool,
    isScout: UnitType -> bool,
    buildsSomething: UnitType -> bool,
    upgradesSomething: UnitType -> bool,
    researchesSomething: UnitType -> bool,
    isRefinery: UnitType -> bool)
}
