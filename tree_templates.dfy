/**
 * The race templates of the tech-tree library: constant trees in which
 * every node starts unobtained, and `getBaseTree`, which picks the template
 * for a race.
 *
 * Facts about the templates are stated through `Clean(c, t)`, "no node of
 * `t` passes test `c`", established part by part, the way the templates are
 * assembled from the named subtrees.
 */
module TechTemplates {
  import opened Wrappers
  import opened UnitTypes
  import opened TreeBasics
  import opened TreeSearch

  const PROTOSS_ROBOTICS_FACILITY: Tree :=
    Node(ProtossRoboticsFacility, false, true, [
      Node(ProtossRoboticsSupportBay, false, true, [Node(ProtossReaver, false, true, [])]),
      Node(ProtossObservatory, false, true, [Node(ProtossObserver, false, true, [])]),
      Node(ProtossShuttle, false, true, [])])

  const PROTOSS_STARGATE: Tree :=
    Node(ProtossStargate, false, false, [
      Node(ProtossFleetBeacon, false, true, [
        Node(ProtossCitadelOfAdun, false, true, [
          Node(ProtossTemplarArchives, false, true, [
            Node(ProtossHighTemplar, false, true, []),
            Node(ProtossDarkTemplar, false, true, []),
            Node(ProtossArchon, false, true, []),
            Node(ProtossDarkArchon, false, true, []),
            Node(ProtossArbiterTribunal, false, true, [Node(ProtossArbiter, false, true, [])])])]),
        Node(ProtossCarrier, false, true, [])]),
      Node(ProtossScout, false, true, []),
      Node(ProtossCorsair, false, true, [])])

  const PROTOSS_CITADEL_OF_ADUN: Tree :=
    Node(ProtossCitadelOfAdun, false, false, [
      Node(ProtossTemplarArchives, false, true, [
        Node(ProtossHighTemplar, false, true, []),
        Node(ProtossDarkTemplar, false, true, []),
        Node(ProtossArchon, false, true, []),
        Node(ProtossDarkArchon, false, true, []),
        Node(ProtossStargate, false, true, [
          Node(ProtossFleetBeacon, false, true, [Node(ProtossCarrier, false, true, [])]),
          Node(ProtossArbiterTribunal, false, true, [Node(ProtossArbiter, false, true, [])]),
          Node(ProtossScout, false, true, []),
          Node(ProtossCorsair, false, true, [])])])])

  // The full templates are written with their inner branches named, so that
  // facts about them can be assembled branch by branch.

  const PROTOSS_CYBERNETICS_CORE: Tree :=
    Node(ProtossCyberneticsCore, false, true, [
      Node(ProtossDragoon, false, true, []), PROTOSS_ROBOTICS_FACILITY, PROTOSS_STARGATE, PROTOSS_CITADEL_OF_ADUN])

  const PROTOSS_GATEWAY: Tree :=
    Node(ProtossGateway, false, true, [PROTOSS_CYBERNETICS_CORE, Node(ProtossZealot, false, true, []), Node(ProtossShieldBattery, false, true, [])])

  const PROTOSS_NEXUS: Tree :=
    Node(ProtossNexus, false, true, [
      PROTOSS_GATEWAY,
      Node(ProtossForge, false, true, [Node(ProtossPhotonCannon, false, true, [])]),
      Node(ProtossProbe, false, true, [])])

  const PROTOSS_TREE: Tree :=
    Node(NoneType, false, true, [PROTOSS_NEXUS, Node(ProtossPylon, false, true, []), Node(ProtossAssimilator, false, true, [])])

  const TERRAN_STARPORT: Tree :=
    Node(TerranStarport, false, true, [
      Node(TerranScienceFacility, false, true, [Node(TerranPhysicsLab, false, true, []), Node(TerranCovertOps, false, true, [])]),
      Node(TerranControlTower, false, true, [Node(TerranDropship, false, true, []), Node(TerranArmory, false, true, [Node(TerranValkyrie, false, true, [])])]),
      Node(TerranWraith, false, true, [])])

  const TERRAN_ACADEMY: Tree :=
    Node(TerranAcademy, false, true, [Node(TerranFirebat, false, true, []), Node(TerranMedic, false, true, []), Node(TerranComsatStation, false, true, [])])

  const TERRAN_ARMORY: Tree :=
    Node(TerranArmory, false, true, [
      Node(TerranGoliath, false, true, []),
      Node(TerranStarport, false, true, [
        Node(TerranScienceFacility, false, true, [Node(TerranPhysicsLab, false, true, []), Node(TerranCovertOps, false, true, [])]),
        Node(TerranControlTower, false, true, [Node(TerranDropship, false, true, [])]),
        Node(TerranWraith, false, true, [])])])

  const TERRAN_FACTORY: Tree :=
    Node(TerranFactory, false, true, [TERRAN_STARPORT, TERRAN_ARMORY, Node(TerranVulture, false, true, [])])

  const TERRAN_BARRACKS: Tree :=
    Node(TerranBarracks, false, true, [TERRAN_FACTORY, Node(TerranBunker, false, true, []), TERRAN_ACADEMY, Node(TerranMarine, false, true, [])])

  const TERRAN_COMMAND_CENTER: Tree :=
    Node(TerranCommandCenter, false, true, [
      TERRAN_BARRACKS,
      Node(TerranEngineeringBay, false, true, [Node(TerranMissileTurret, false, true, [])]),
      Node(TerranSCV, false, true, [])])

  const TERRAN_TREE: Tree :=
    Node(NoneType, false, true, [TERRAN_COMMAND_CENTER, Node(TerranSupplyDepot, false, true, []), Node(TerranRefinery, false, true, [])])

  /** The Zerg template is, for now, the Protoss one. */
  const ZERG_TREE: Tree :=
    Node(NoneType, false, true, [PROTOSS_NEXUS, Node(ProtossPylon, false, true, []), Node(ProtossAssimilator, false, true, [])])

  // -------------------------------------------------------- node tests

  /** A test on a single node. */
  datatype Test = IsObtained | NonUnique | OfKind(k: UnitType)

  predicate Passes(c: Test, n: Tree)
  {
    match c
    case IsObtained => n.obtained
    case NonUnique => !n.unique
    case OfKind(k) => n.kind == k
  }

  /** No node of `t` passes `c`. */
  predicate Clean(c: Test, t: Tree)
    decreases t, 1, 0
  {
    !Passes(c, t) && CleanFrom(c, t, 0)
  }

  /** No node in the subtrees of children `i` onwards passes `c`. */
  predicate CleanFrom(c: Test, t: Tree, i: nat)
    requires i <= |t.subs|
    decreases t, 0, |t.subs| - i
  {
    i == |t.subs| || (Clean(c, t.subs[i]) && CleanFrom(c, t, i + 1))
  }

  /** `Clean` is the statement about every position of the tree. */
  lemma {:induction false} CleanEverywhere(c: Test, t: Tree)
    ensures Clean(c, t) <==> NoneAnywhere(c, t)
    decreases t, 1, 0
  {
    CleanFromEverywhere(c, t, 0);
    var root: Path := [];
    assert ValidPath(t, root) && At(t, root) == t;
    if Clean(c, t) {
      forall q | ValidPath(t, q) ensures !Passes(c, At(t, q)) {
        if q != [] { assert q[0] >= 0; }
      }
    } else if !Passes(c, t) {
      var q :| ValidPath(t, q) && q != [] && q[0] >= 0 && Passes(c, At(t, q));
    }
  }

  /** No node anywhere in `t` passes `c`. */
  ghost predicate NoneAnywhere(c: Test, t: Tree)
  {
    forall q :: ValidPath(t, q) ==> !Passes(c, At(t, q))
  }

  lemma {:induction false} CleanFromEverywhere(c: Test, t: Tree, i: nat)
    requires i <= |t.subs|
    ensures CleanFrom(c, t, i) ==>
      forall q :: ValidPath(t, q) && q != [] && q[0] >= i ==> !Passes(c, At(t, q))
    ensures !CleanFrom(c, t, i) ==>
      exists q :: ValidPath(t, q) && q != [] && q[0] >= i && Passes(c, At(t, q))
    decreases t, 0, |t.subs| - i
  {
    if i < |t.subs| {
      CleanEverywhere(c, t.subs[i]);
      CleanFromEverywhere(c, t, i + 1);
      if CleanFrom(c, t, i) {
        forall q | ValidPath(t, q) && q != [] && q[0] >= i ensures !Passes(c, At(t, q)) {
          assert q == [q[0]] + q[1..];
          ValidCons(t, q[0], q[1..]);
        }
      } else if !Clean(c, t.subs[i]) {
        var q :| ValidPath(t.subs[i], q) && Passes(c, At(t.subs[i], q));
        ValidCons(t, i, q);
        assert ([i] + q)[0] == i;
      }
    }
  }

  /** A type no node has is not found by any search. */
  lemma Absent(k: UnitType, t: Tree, ign: bool)
    requires Clean(OfKind(k), t)
    ensures FindNode(k, t, ign) == None
  {
    CleanEverywhere(OfKind(k), t);
    forall q | Visible(t, q, ign) ensures ValidPath(t, q) && At(t, q).kind != k {
      VisibleIsValid(t, q, ign);
    }
  }

  /** The children of a node with one to five children are clean when each
      child is; the node is then clean if it fails the test itself. */
  lemma Clean1(c: Test, t: Tree)
    requires |t.subs| == 1 && Clean(c, t.subs[0])
    ensures CleanFrom(c, t, 0) && (!Passes(c, t) ==> Clean(c, t))
  {
    assert CleanFrom(c, t, 1);
  }

  lemma Clean2(c: Test, t: Tree)
    requires |t.subs| == 2 && Clean(c, t.subs[0]) && Clean(c, t.subs[1])
    ensures CleanFrom(c, t, 0) && (!Passes(c, t) ==> Clean(c, t))
  {
    assert CleanFrom(c, t, 2);
    assert CleanFrom(c, t, 1);
  }

  lemma Clean3(c: Test, t: Tree)
    requires |t.subs| == 3
    requires Clean(c, t.subs[0]) && Clean(c, t.subs[1]) && Clean(c, t.subs[2])
    ensures CleanFrom(c, t, 0) && (!Passes(c, t) ==> Clean(c, t))
  {
    assert CleanFrom(c, t, 3);
    assert CleanFrom(c, t, 2);
    assert CleanFrom(c, t, 1);
  }

  lemma Clean4(c: Test, t: Tree)
    requires |t.subs| == 4
    requires Clean(c, t.subs[0]) && Clean(c, t.subs[1]) && Clean(c, t.subs[2]) && Clean(c, t.subs[3])
    ensures CleanFrom(c, t, 0) && (!Passes(c, t) ==> Clean(c, t))
  {
    assert CleanFrom(c, t, 4);
    assert CleanFrom(c, t, 3);
    assert CleanFrom(c, t, 2);
    assert CleanFrom(c, t, 1);
  }

  lemma Clean5(c: Test, t: Tree)
    requires |t.subs| == 5
    requires Clean(c, t.subs[0]) && Clean(c, t.subs[1]) && Clean(c, t.subs[2]) && Clean(c, t.subs[3])
    requires Clean(c, t.subs[4])
    ensures CleanFrom(c, t, 0) && (!Passes(c, t) ==> Clean(c, t))
  {
    assert CleanFrom(c, t, 5);
    assert CleanFrom(c, t, 4);
    assert CleanFrom(c, t, 3);
    assert CleanFrom(c, t, 2);
    assert CleanFrom(c, t, 1);
  }

  /** Below a clean node, every node fails the test. */
  lemma CleanUnder(c: Test, t: Tree, p: Path, q: Path)
    requires ValidPath(t, p) && Clean(c, At(t, p))
    requires ValidPath(t, p + q)
    ensures !Passes(c, At(t, p + q))
  {
    AtAppend(t, p, q);
    CleanEverywhere(c, At(t, p));
  }

  /** Strictly below a node whose children are clean, every node fails the
      test. */
  lemma CleanFromUnder(c: Test, t: Tree, p: Path, q: Path)
    requires ValidPath(t, p) && CleanFrom(c, At(t, p), 0)
    requires q != [] && ValidPath(t, p + q)
    ensures !Passes(c, At(t, p + q))
  {
    AtAppend(t, p, q);
    CleanFromEverywhere(c, At(t, p), 0);
  }

  /** In a node that passes no test itself and whose children other than
      child `j` are clean, every position that passes lies under child `j`. */
  lemma OnlyUnder(c: Test, t: Tree, j: nat, q: Path)
    requires j < |t.subs| && !Passes(c, t)
    requires forall i :: 0 <= i < |t.subs| && i != j ==> Clean(c, t.subs[i])
    requires ValidPath(t, q) && Passes(c, At(t, q))
    ensures q != [] && q[0] == j
    ensures ValidPath(t.subs[j], q[1..]) && Passes(c, At(t.subs[j], q[1..]))
  {
    assert q != [];
    assert q == [q[0]] + q[1..];
    ValidCons(t, q[0], q[1..]);
    if q[0] != j {
      CleanEverywhere(c, t.subs[q[0]]);
      assert false;
    }
  }

  // ------------------------------------------------------ template facts

  /** The tests every template node fails, apart from the roots of the
      duplicated Stargate and Citadel of Adun parts. */
  predicate TemplateTest(c: Test)
  {
    c == IsObtained || c == NonUnique
  }

  /** The tests every node of the parts under the Cybernetics Core fails, apart
      from the roots of the duplicated parts: the template tests, and the
      types of the Zealot and the Probe, which sit outside that subtree. */
  predicate CorePartTest(c: Test)
  {
    BelowRootTest(c) || c == OfKind(ProtossZealot) || c == OfKind(ProtossProbe)
  }

  /** The tests every template node below the root fails, apart from the
      roots of the duplicated parts: the template tests, and having type
      `None`, which only the root has. */
  predicate BelowRootTest(c: Test)
  {
    TemplateTest(c) || c == OfKind(NoneType)
  }

  /** A node that no test of the core parts picks out. */
  predicate Plain(n: Tree)
  {
    !n.obtained && n.unique && n.kind != ProtossZealot && n.kind != ProtossProbe && n.kind != NoneType
  }

  lemma PlainFails(c: Test, n: Tree)
    requires CorePartTest(c) && Plain(n)
    ensures !Passes(c, n)
  {
  }

  lemma PlainLeaf(c: Test, n: Tree)
    requires CorePartTest(c) && Plain(n) && n.subs == []
    ensures Clean(c, n)
  {
    PlainFails(c, n);
  }

  /** A plain node over one plain leaf. */
  lemma PlainOverLeaf(c: Test, n: Tree)
    requires CorePartTest(c) && Plain(n) && |n.subs| == 1 && Plain(n.subs[0]) && n.subs[0].subs == []
    ensures Clean(c, n)
  {
    PlainLeaf(c, n.subs[0]);
    PlainFails(c, n);
    Clean1(c, n);
  }

  lemma RoboticsFacilityClean(c: Test)
    requires CorePartTest(c)
    ensures Clean(c, PROTOSS_ROBOTICS_FACILITY)
  {
    var rf := PROTOSS_ROBOTICS_FACILITY;
    PlainOverLeaf(c, rf.subs[0]);
    PlainOverLeaf(c, rf.subs[1]);
    PlainLeaf(c, rf.subs[2]);
    PlainFails(c, rf);
    Clean3(c, rf);
  }

  /** Below its root, the Stargate part passes neither test. */
  lemma StargateCleanBelowRoot(c: Test)
    requires CorePartTest(c)
    ensures CleanFrom(c, PROTOSS_STARGATE, 0)
  {
    var fb := PROTOSS_STARGATE.subs[0];
    StargateArchivesClean(c);
    PlainFails(c, fb.subs[0]);
    Clean1(c, fb.subs[0]);
    PlainLeaf(c, fb.subs[1]);
    PlainFails(c, fb);
    Clean2(c, fb);
    PlainLeaf(c, PROTOSS_STARGATE.subs[1]);
    PlainLeaf(c, PROTOSS_STARGATE.subs[2]);
    Clean3(c, PROTOSS_STARGATE);
  }

  /** The Templar Archives under the Stargate's Fleet Beacon. */
  lemma StargateArchivesClean(c: Test)
    requires CorePartTest(c)
    ensures Clean(c, PROTOSS_STARGATE.subs[0].subs[0].subs[0])
  {
    var ta := PROTOSS_STARGATE.subs[0].subs[0].subs[0];
    PlainLeaf(c, ta.subs[0]);
    PlainLeaf(c, ta.subs[1]);
    PlainLeaf(c, ta.subs[2]);
    PlainLeaf(c, ta.subs[3]);
    PlainOverLeaf(c, ta.subs[4]);
    PlainFails(c, ta);
    Clean5(c, ta);
  }

  /** Below its root, the Citadel of Adun part passes neither test. */
  lemma CitadelCleanBelowRoot(c: Test)
    requires CorePartTest(c)
    ensures CleanFrom(c, PROTOSS_CITADEL_OF_ADUN, 0)
  {
    CitadelArchivesClean(c);
    Clean1(c, PROTOSS_CITADEL_OF_ADUN);
  }

  /** The Templar Archives under the Citadel of Adun. */
  lemma CitadelArchivesClean(c: Test)
    requires CorePartTest(c)
    ensures Clean(c, PROTOSS_CITADEL_OF_ADUN.subs[0])
  {
    var ta := PROTOSS_CITADEL_OF_ADUN.subs[0];
    PlainLeaf(c, ta.subs[0]);
    PlainLeaf(c, ta.subs[1]);
    PlainLeaf(c, ta.subs[2]);
    PlainLeaf(c, ta.subs[3]);
    CitadelStargateClean(c);
    PlainFails(c, ta);
    Clean5(c, ta);
  }

  /** The Stargate under the Citadel's Templar Archives. */
  lemma CitadelStargateClean(c: Test)
    requires CorePartTest(c)
    ensures Clean(c, PROTOSS_CITADEL_OF_ADUN.subs[0].subs[4])
  {
    var sg := PROTOSS_CITADEL_OF_ADUN.subs[0].subs[4];
    PlainOverLeaf(c, sg.subs[0]);
    PlainOverLeaf(c, sg.subs[1]);
    PlainLeaf(c, sg.subs[2]);
    PlainLeaf(c, sg.subs[3]);
    PlainFails(c, sg);
    Clean4(c, sg);
  }

  /** The Protoss template outside the Cybernetics Core's subtree. */
  lemma ProtossCleanOutsideCore(c: Test)
    requires TemplateTest(c) && Clean(c, PROTOSS_CYBERNETICS_CORE)
    ensures Clean(c, PROTOSS_TREE)
  {
    Clean3(c, PROTOSS_GATEWAY);
    Clean1(c, PROTOSS_NEXUS.subs[1]);
    Clean3(c, PROTOSS_NEXUS);
    Clean3(c, PROTOSS_TREE);
  }

  /** Every node of the Protoss template starts unobtained. */
  lemma ProtossUnobtained()
    ensures Clean(IsObtained, PROTOSS_TREE)
  {
    var c := IsObtained;
    RoboticsFacilityClean(c);
    StargateCleanBelowRoot(c);
    CitadelCleanBelowRoot(c);
    Clean4(c, PROTOSS_CYBERNETICS_CORE);
    ProtossCleanOutsideCore(c);
  }

  /** The Cybernetics Core, position [0, 0, 0] of the Protoss template. */
  lemma CorePosition()
    ensures ValidPath(PROTOSS_TREE, [0, 0, 0])
    ensures At(PROTOSS_TREE, [0, 0, 0]) == PROTOSS_CYBERNETICS_CORE
  {
    ValidCons(PROTOSS_GATEWAY, 0, []);
    ValidCons(PROTOSS_NEXUS, 0, [0]);
    ValidCons(PROTOSS_TREE, 0, [0, 0]);
    assert [0] + [0, 0] == [0, 0, 0];
  }

  /** The roots of the Stargate and Citadel of Adun parts, children 2 and 3
      of the Cybernetics Core, are non-unique. */
  lemma ProtossNonUniqueRoots(j: nat)
    requires j == 2 || j == 3
    ensures ValidPath(PROTOSS_TREE, [0, 0, 0, j]) && !At(PROTOSS_TREE, [0, 0, 0, j]).unique
  {
    var core := PROTOSS_CYBERNETICS_CORE;
    CorePosition();
    AtAppend(PROTOSS_TREE, [0, 0, 0], [j]);
    ValidCons(core, j, []);
    assert [0, 0, 0] + [j] == [0, 0, 0, j];
  }

  /** Within the Cybernetics Core's subtree only children 2 and 3, the
      roots of the Stargate and Citadel of Adun parts, are non-unique. */
  lemma CoreUniqueElsewhere(q: Path)
    requires ValidPath(PROTOSS_CYBERNETICS_CORE, q) && !At(PROTOSS_CYBERNETICS_CORE, q).unique
    ensures q == [2] || q == [3]
  {
    var c := NonUnique;
    var core := PROTOSS_CYBERNETICS_CORE;
    RoboticsFacilityClean(c);
    StargateCleanBelowRoot(c);
    CitadelCleanBelowRoot(c);
    assert q != [] && q == [q[0]] + q[1..];
    ValidCons(core, q[0], q[1..]);
    if q[0] == 1 {
      CleanEverywhere(c, PROTOSS_ROBOTICS_FACILITY);
    } else if q[0] >= 2 && q[1..] != [] {
      CleanFromEverywhere(c, core.subs[q[0]], 0);
    }
  }

  /** Every other position of the Protoss template is unique. */
  lemma ProtossUniqueElsewhere(q: Path)
    requires ValidPath(PROTOSS_TREE, q) && !At(PROTOSS_TREE, q).unique
    ensures q == [0, 0, 0, 2] || q == [0, 0, 0, 3]
  {
    var c := NonUnique;
    assert Passes(c, At(PROTOSS_TREE, q));
    OnlyUnder(c, PROTOSS_TREE, 0, q);
    var q1 := q[1..];
    OnlyUnder(c, PROTOSS_NEXUS, 0, q1);
    var q2 := q1[1..];
    OnlyUnder(c, PROTOSS_GATEWAY, 0, q2);
    var q3 := q2[1..];
    CoreUniqueElsewhere(q3);
    assert q == [0, 0, 0] + q3;
  }

  /** Only the roots of the Stargate and Citadel of Adun parts are
      non-unique in the Protoss template. */
  lemma ProtossNonUnique(q: Path)
    ensures ValidPath(PROTOSS_TREE, q) && !At(PROTOSS_TREE, q).unique <==> q == [0, 0, 0, 2] || q == [0, 0, 0, 3]
  {
    if ValidPath(PROTOSS_TREE, q) && !At(PROTOSS_TREE, q).unique {
      ProtossUniqueElsewhere(q);
    }
    if q == [0, 0, 0, 2] || q == [0, 0, 0, 3] {
      ProtossNonUniqueRoots(q[3]);
    }
  }

  /** The Stargate and the Citadel of Adun each occur twice in the Protoss
      template: as a non-unique child of the Cybernetics Core, and as a
      unique node nested in the other one's part. */
  lemma PartsOccurTwice()
    ensures ValidPath(PROTOSS_TREE, [0, 0, 0, 2]) && At(PROTOSS_TREE, [0, 0, 0, 2]).kind == ProtossStargate
    ensures ValidPath(PROTOSS_TREE, [0, 0, 0, 3, 0, 4]) && At(PROTOSS_TREE, [0, 0, 0, 3, 0, 4]).kind == ProtossStargate
    ensures At(PROTOSS_TREE, [0, 0, 0, 3, 0, 4]).unique
    ensures ValidPath(PROTOSS_TREE, [0, 0, 0, 3]) && At(PROTOSS_TREE, [0, 0, 0, 3]).kind == ProtossCitadelOfAdun
    ensures ValidPath(PROTOSS_TREE, [0, 0, 0, 2, 0, 0]) && At(PROTOSS_TREE, [0, 0, 0, 2, 0, 0]).kind == ProtossCitadelOfAdun
    ensures At(PROTOSS_TREE, [0, 0, 0, 2, 0, 0]).unique
  {
    CorePosition();
    var core := PROTOSS_CYBERNETICS_CORE;
    var sg, ca := PROTOSS_STARGATE, PROTOSS_CITADEL_OF_ADUN;
    assert ValidPath(core, [2, 0, 0]) && At(core, [2, 0, 0]) == sg.subs[0].subs[0];
    assert ValidPath(core, [3, 0, 4]) && At(core, [3, 0, 4]) == ca.subs[0].subs[4];
    assert ValidPath(core, [2]) && At(core, [2]) == sg;
    assert ValidPath(core, [3]) && At(core, [3]) == ca;
    AtAppend(PROTOSS_TREE, [0, 0, 0], [2]);
    AtAppend(PROTOSS_TREE, [0, 0, 0], [3]);
    AtAppend(PROTOSS_TREE, [0, 0, 0], [2, 0, 0]);
    AtAppend(PROTOSS_TREE, [0, 0, 0], [3, 0, 4]);
    assert [0, 0, 0] + [2] == [0, 0, 0, 2] && [0, 0, 0] + [3] == [0, 0, 0, 3];
    assert [0, 0, 0] + [2, 0, 0] == [0, 0, 0, 2, 0, 0] && [0, 0, 0] + [3, 0, 4] == [0, 0, 0, 3, 0, 4];
  }

  /** No Zealot in the Cybernetics Core's subtree. */
  lemma ZealotNotInCore()
    ensures FindFirst(ByType(ProtossZealot), PROTOSS_CYBERNETICS_CORE, false) == None
  {
    var c := OfKind(ProtossZealot);
    RoboticsFacilityClean(c);
    StargateCleanBelowRoot(c);
    CitadelCleanBelowRoot(c);
    Clean4(c, PROTOSS_CYBERNETICS_CORE);
    Absent(ProtossZealot, PROTOSS_CYBERNETICS_CORE, false);
  }

  /** No Probe in the Gateway's subtree. */
  lemma ProbeNotInGateway()
    ensures FindFirst(ByType(ProtossProbe), PROTOSS_GATEWAY, false) == None
  {
    var c := OfKind(ProtossProbe);
    RoboticsFacilityClean(c);
    StargateCleanBelowRoot(c);
    CitadelCleanBelowRoot(c);
    Clean4(c, PROTOSS_CYBERNETICS_CORE);
    Clean3(c, PROTOSS_GATEWAY);
    Absent(ProtossProbe, PROTOSS_GATEWAY, false);
  }

  /** The prerequisites of the Nexus in the Protoss template: none. */
  lemma NexusPrereqs()
    ensures FindNodeBelowRoot(ProtossNexus, PROTOSS_TREE, false) == Some([0])
    ensures GetUnitPrereqs(ProtossNexus, PROTOSS_TREE) == []
  {
    var g := ByType(ProtossNexus);
    assert FindFirst(Sub(Below(g), 0), PROTOSS_NEXUS, false) == Some([]);
    FoundInChild(Below(g), PROTOSS_TREE, 0, []);
    assert [0] + [] == [0];
  }


  /** The first Probe in the Nexus's subtree is its third child. */
  lemma ProbeInNexus()
    ensures FindFirst(ByType(ProtossProbe), PROTOSS_NEXUS, false) == Some([2])
  {
    var g := ByType(ProtossProbe);
    ProbeNotInGateway();
    ProbeNotInForge();
    assert FindFirst(g, PROTOSS_NEXUS.subs[2], false) == Some([]);
    FoundInChild(g, PROTOSS_NEXUS, 2, []);
    assert [2] + [] == [2];
  }

  /** No Probe in the Forge's subtree. */
  lemma ProbeNotInForge()
    ensures FindFirst(ByType(ProtossProbe), PROTOSS_NEXUS.subs[1], false) == None
  {
    var c := OfKind(ProtossProbe);
    Clean1(c, PROTOSS_NEXUS.subs[1]);
    Absent(ProtossProbe, PROTOSS_NEXUS.subs[1], false);
  }

  /** The first Probe below the root of the Protoss template is at [0, 2]. */
  lemma ProbeSearch()
    ensures FindFirst(Below(ByType(ProtossProbe)), PROTOSS_TREE, false) == Some([0, 2])
  {
    ProbeInNexus();
    FoundInChild(Below(ByType(ProtossProbe)), PROTOSS_TREE, 0, [2]);
    assert [0] + [2] == [0, 2];
  }


  /** The prerequisites of the Probe in the Protoss template: the Nexus. */
  lemma ProbePrereqs()
    ensures FindNodeBelowRoot(ProtossProbe, PROTOSS_TREE, false) == Some([0, 2])
    ensures GetUnitPrereqs(ProtossProbe, PROTOSS_TREE) == [ProtossNexus]
  {
    ProbeSearch();
    assert Ancestry(PROTOSS_TREE, [0, 2]) == [NoneType] + Ancestry(PROTOSS_NEXUS, [2]);
  }

  /** The first Zealot below the root of the Protoss template is at [0, 0, 1]. */
  lemma ZealotSearch()
    ensures FindFirst(Below(ByType(ProtossZealot)), PROTOSS_TREE, false) == Some([0, 0, 1])
  {
    ZealotInNexus();
    FoundInChild(Below(ByType(ProtossZealot)), PROTOSS_TREE, 0, [0, 1]);
    assert [0] + [0, 1] == [0, 0, 1];
  }

  lemma ZealotInNexus()
    ensures FindFirst(ByType(ProtossZealot), PROTOSS_NEXUS, false) == Some([0, 1])
  {
    ZealotInGateway();
    FoundInChild(ByType(ProtossZealot), PROTOSS_NEXUS, 0, [1]);
    assert [0] + [1] == [0, 1];
  }

  lemma ZealotInGateway()
    ensures FindFirst(ByType(ProtossZealot), PROTOSS_GATEWAY, false) == Some([1])
  {
    var g := ByType(ProtossZealot);
    ZealotNotInCore();
    assert FindFirst(g, PROTOSS_GATEWAY.subs[1], false) == Some([]);
    FoundInChild(g, PROTOSS_GATEWAY, 1, []);
    assert [1] + [] == [1];
  }


  /** The prerequisites of the Zealot in the Protoss template: the Nexus and
      the Gateway. */
  lemma ZealotPrereqs()
    ensures FindNodeBelowRoot(ProtossZealot, PROTOSS_TREE, false) == Some([0, 0, 1])
    ensures GetUnitPrereqs(ProtossZealot, PROTOSS_TREE) == [ProtossNexus, ProtossGateway]
  {
    ZealotSearch();
    assert Ancestry(PROTOSS_TREE, [0, 0, 1]) == [NoneType] + Ancestry(PROTOSS_NEXUS, [0, 1]);
    assert Ancestry(PROTOSS_NEXUS, [0, 1]) == [ProtossNexus] + Ancestry(PROTOSS_GATEWAY, [1]);
  }

  lemma TerranStarportClean(c: Test)
    requires BelowRootTest(c)
    ensures Clean(c, TERRAN_STARPORT)
  {
    var sp := TERRAN_STARPORT;
    Clean2(c, sp.subs[0]);
    Clean1(c, sp.subs[1].subs[1]);
    Clean2(c, sp.subs[1]);
    Clean3(c, sp);
  }

  lemma TerranArmoryClean(c: Test)
    requires BelowRootTest(c)
    ensures Clean(c, TERRAN_ARMORY)
  {
    var sp := TERRAN_ARMORY.subs[1];
    Clean2(c, sp.subs[0]);
    Clean1(c, sp.subs[1]);
    Clean3(c, sp);
    Clean2(c, TERRAN_ARMORY);
  }

  /** Every node of the Terran template starts unobtained and is unique. */
  lemma TerranClean(c: Test)
    requires TemplateTest(c)
    ensures Clean(c, TERRAN_TREE)
  {
    TerranStarportClean(c);
    TerranArmoryClean(c);
    Clean3(c, TERRAN_FACTORY);
    Clean3(c, TERRAN_ACADEMY);
    Clean4(c, TERRAN_BARRACKS);
    Clean1(c, TERRAN_COMMAND_CENTER.subs[1]);
    Clean3(c, TERRAN_COMMAND_CENTER);
    Clean3(c, TERRAN_TREE);
  }

  /** The Cybernetics Core's subtree has no node of type `None`. */
  lemma CoreHasNoNone()
    ensures Clean(OfKind(NoneType), PROTOSS_CYBERNETICS_CORE)
  {
    var c := OfKind(NoneType);
    RoboticsFacilityClean(c);
    StargateCleanBelowRoot(c);
    CitadelCleanBelowRoot(c);
    Clean4(c, PROTOSS_CYBERNETICS_CORE);
  }

  /** The Nexus's subtree has no node of type `None`. */
  lemma NexusHasNoNone()
    ensures Clean(OfKind(NoneType), PROTOSS_NEXUS)
  {
    var c := OfKind(NoneType);
    CoreHasNoNone();
    Clean3(c, PROTOSS_GATEWAY);
    Clean1(c, PROTOSS_NEXUS.subs[1]);
    Clean3(c, PROTOSS_NEXUS);
  }

  /** In the Protoss template only the root has type `None`. */
  lemma ProtossNoneOnlyAtRoot()
    ensures NoneOnlyAtRoot(PROTOSS_TREE)
  {
    var c := OfKind(NoneType);
    NexusHasNoNone();
    Clean3(c, PROTOSS_TREE);
    CleanFromEverywhere(c, PROTOSS_TREE, 0);
  }

  /** In the Terran template only the root has type `None`. */
  lemma TerranNoneOnlyAtRoot()
    ensures NoneOnlyAtRoot(TERRAN_TREE)
  {
    var c := OfKind(NoneType);
    TerranStarportClean(c);
    TerranArmoryClean(c);
    Clean3(c, TERRAN_FACTORY);
    Clean3(c, TERRAN_ACADEMY);
    Clean4(c, TERRAN_BARRACKS);
    Clean1(c, TERRAN_COMMAND_CENTER.subs[1]);
    Clean3(c, TERRAN_COMMAND_CENTER);
    Clean3(c, TERRAN_TREE);
    CleanFromEverywhere(c, TERRAN_TREE, 0);
  }

  lemma ZergIsProtoss()
    ensures ZERG_TREE == PROTOSS_TREE
  {
  }

  // -------------------------------------------------------- getBaseTree

  /** The template for a race; NULL_TREE for a race without one. Every
      template is rooted at a None node whose children are the race's
      resource depot, supply building and gas building, and starts with no
      node obtained. */
  function GetBaseTree(race: Race): (r: Tree)
    ensures race == UnknownRace <==> r == NULL_TREE
    ensures race != UnknownRace ==> r.kind == NoneType && |r.subs| == 3
    ensures race in {Protoss, Zerg} ==>
      [r.subs[0].kind, r.subs[1].kind, r.subs[2].kind] == [ProtossNexus, ProtossPylon, ProtossAssimilator]
    ensures race == Terran ==>
      [r.subs[0].kind, r.subs[1].kind, r.subs[2].kind] == [TerranCommandCenter, TerranSupplyDepot, TerranRefinery]
    ensures Clean(IsObtained, r)
  {
    ProtossUnobtained();
    TerranClean(IsObtained);
    ZergIsProtoss();
    match race
    case Protoss => PROTOSS_TREE
    case Terran => TERRAN_TREE
    case Zerg => ZERG_TREE
    case UnknownRace => NULL_TREE
  }

  /** Whatever the race, only the root of its template has type `None`, so
      the trees the bot plays on meet the hypothesis of
      `TreeQueries.FirstDifferenceSpec` when the search starts. */
  lemma BaseTreeNoneOnlyAtRoot(race: Race)
    ensures NoneOnlyAtRoot(GetBaseTree(race))
  {
    match race
    case Protoss => ProtossNoneOnlyAtRoot();
    case Terran => TerranNoneOnlyAtRoot();
    case Zerg => ProtossNoneOnlyAtRoot(); ZergIsProtoss();
    case UnknownRace => CleanFromEverywhere(OfKind(NoneType), NULL_TREE, 0);
  }
}
