/**
 * The demo scene: GameProvider provides a HealthService and a WeaponService,
 * Player injects both into null fields, Enemy injects the HealthService.
 */
module DemoScene {
  import opened Descriptors
  import opened Registration
  import opened Injection
  import opened Bootstrapping

  const HealthServiceType := TypeKey(1)
  const WeaponServiceType := TypeKey(2)

  /** The instances the two [Provide] methods of the scene's GameProvider create. */
  const TheHealthService := Obj(1)
  const TheWeaponService := Obj(2)

  /** A GameProvider component whose [Provide] methods create `health` and `weapon`. */
  function GameProviderCreating(health: Obj, weapon: Obj): Candidate {
    Candidate(
      Descriptor(true, [], [], [
        MethodInfo(false, true, HealthServiceType, [], Some(health)),
        MethodInfo(false, true, WeaponServiceType, [], Some(weapon))]),
      Members([], [], []))
  }

  const GameProvider := GameProviderCreating(TheHealthService, TheWeaponService)

  /** A second GameProvider creates instances of its own. */
  const SecondGameProvider := GameProviderCreating(Obj(3), Obj(4))

  const Player := Candidate(
    Descriptor(false, [FieldInfo(true, HealthServiceType), FieldInfo(true, WeaponServiceType)], [], []),
    Members([None, None], [], []))

  const Enemy := Candidate(
    Descriptor(false, [FieldInfo(true, HealthServiceType)], [], []),
    Members([None], [], []))

  /** The registry the GameProvider fills. */
  const DemoRegistry := map[HealthServiceType := TheHealthService, WeaponServiceType := TheWeaponService]

  /** Register on GameProvider adds both services to a registry holding neither, and fails on one holding the first. */
  lemma {:induction false} GameProviderRegisters(reg: Registry, health: Obj, weapon: Obj)
    ensures HealthServiceType !in reg && WeaponServiceType !in reg ==>
      RegisterOps(reg, GameProviderCreating(health, weapon).desc.methods) ==
        RegisterOutcome(reg[HealthServiceType := health][WeaponServiceType := weapon], None)
    ensures HealthServiceType in reg ==>
      RegisterOps(reg, GameProviderCreating(health, weapon).desc.methods) ==
        RegisterOutcome(reg, Some(DuplicateKey(HealthServiceType)))
  {
    var ms := GameProviderCreating(health, weapon).desc.methods;
    assert ms[1..] == [ms[1]] && ms[1..][1..] == [];
    if HealthServiceType !in reg && WeaponServiceType !in reg {
      var reg1 := reg[HealthServiceType := health];
      var reg2 := reg1[WeaponServiceType := weapon];
      assert RegisterOps(reg2, ms[1..][1..]) == RegisterOutcome(reg2, None);
      assert RegisterOps(reg1, ms[1..]) == RegisterOutcome(reg2, None);
    }
  }

  /** Player's two null fields receive the two services. */
  lemma {:induction false} PlayerInjected()
    ensures Injected(DemoRegistry, Player) ==
      InjectOutcome(Members([Some(TheHealthService), Some(TheWeaponService)], [], []), None)
  {
    var fs := Player.desc.fields;
    var v1 := [Some(TheHealthService), None];
    var v2 := [Some(TheHealthService), Some(TheWeaponService)];
    assert FieldsFrom(DemoRegistry, fs, v2, 2) == Filled(v2, None);
    assert v1[1 := Some(TheWeaponService)] == v2;
    assert FieldsFrom(DemoRegistry, fs, v1, 1) == Filled(v2, None);
    assert [None, None][0 := Some(TheHealthService)] == v1;
    assert FieldsFrom(DemoRegistry, fs, [None, None], 0) == Filled(v2, None);
    assert PropertiesFrom(DemoRegistry, [], [], 0) == Filled([], None);
    assert MethodsFrom(DemoRegistry, [], 0) == Invoked([], None);
  }

  /** Enemy's null field receives the same HealthService instance. */
  lemma {:induction false} EnemyInjected()
    ensures Injected(DemoRegistry, Enemy) == InjectOutcome(Members([Some(TheHealthService)], [], []), None)
  {
    var fs := Enemy.desc.fields;
    assert FieldsFrom(DemoRegistry, fs, [Some(TheHealthService)], 1) == Filled([Some(TheHealthService)], None);
    assert [None][0 := Some(TheHealthService)] == [Some(TheHealthService)];
    assert FieldsFrom(DemoRegistry, fs, [None], 0) == Filled([Some(TheHealthService)], None);
    assert PropertiesFrom(DemoRegistry, [], [], 0) == Filled([], None);
    assert MethodsFrom(DemoRegistry, [], 0) == Invoked([], None);
  }

  /**
   * With the provider listed last, registration still comes first: Player and
   * Enemy both receive the one HealthService instance, Player also the
   * WeaponService, and the provider itself is left as it was.
   */
  lemma {:induction false} DemoBootstrap()
    ensures var o := Bootstrap(map[], [Player, Enemy, GameProvider]);
      && o.failure == None
      && o.registry == DemoRegistry
      && o.candidates[0].members.fields == [Some(TheHealthService), Some(TheWeaponService)]
      && o.candidates[1].members.fields == [Some(TheHealthService)]
      && o.candidates[2] == GameProvider
  {
    DemoRegistration();
    DemoInjection();
  }

  /** Registration over the demo scene: only GameProvider registers, filling the demo registry. */
  lemma {:induction false} DemoRegistration()
    ensures RegisterAll(map[], [Player, Enemy, GameProvider]) == RegisterOutcome(DemoRegistry, None)
  {
    var cs := [Player, Enemy, GameProvider];
    assert cs[1..] == [Enemy, GameProvider] && cs[1..][1..] == [GameProvider] && cs[1..][1..][1..] == [];
    GameProviderRegisters(map[], TheHealthService, TheWeaponService);
    assert map[][HealthServiceType := TheHealthService][WeaponServiceType := TheWeaponService] == DemoRegistry;
    assert RegisterAll(map[], [GameProvider]) == RegisterOutcome(DemoRegistry, None);
    assert RegisterAll(map[], [Enemy, GameProvider]) == RegisterOutcome(DemoRegistry, None);
  }

  /** Player and Enemy once injected. */
  const InjectedPlayer := Candidate(Player.desc, Members([Some(TheHealthService), Some(TheWeaponService)], [], []))
  const InjectedEnemy := Candidate(Enemy.desc, Members([Some(TheHealthService)], [], []))

  /** Injection over the demo scene under the demo registry: Player and Enemy are filled, GameProvider skipped. */
  lemma {:induction false} DemoInjection()
    ensures InjectAll(DemoRegistry, [Player, Enemy, GameProvider], 0) ==
      SceneOutcome([InjectedPlayer, InjectedEnemy, GameProvider], None)
  {
    DemoInjectsPlayer();
    DemoInjectsEnemy();
    DemoSkipsProvider();
  }

  lemma {:induction false} DemoInjectsPlayer()
    ensures InjectAll(DemoRegistry, [Player, Enemy, GameProvider], 0) ==
      InjectAll(DemoRegistry, [InjectedPlayer, Enemy, GameProvider], 1)
  {
    assert Player.desc.fields[0].inject;
    PlayerInjected();
    InjectAllOneStep(DemoRegistry, [Player, Enemy, GameProvider], [InjectedPlayer, Enemy, GameProvider], 0, None);
  }

  lemma {:induction false} DemoInjectsEnemy()
    ensures InjectAll(DemoRegistry, [InjectedPlayer, Enemy, GameProvider], 1) ==
      InjectAll(DemoRegistry, [InjectedPlayer, InjectedEnemy, GameProvider], 2)
  {
    assert Enemy.desc.fields[0].inject;
    EnemyInjected();
    InjectAllOneStep(DemoRegistry, [InjectedPlayer, Enemy, GameProvider], [InjectedPlayer, InjectedEnemy, GameProvider], 1, None);
  }

  lemma {:induction false} DemoSkipsProvider()
    ensures InjectAll(DemoRegistry, [InjectedPlayer, InjectedEnemy, GameProvider], 2) ==
      SceneOutcome([InjectedPlayer, InjectedEnemy, GameProvider], None)
  {
    InjectAllPass(DemoRegistry, [InjectedPlayer, InjectedEnemy, GameProvider], 2);
    InjectAllPass(DemoRegistry, [InjectedPlayer, InjectedEnemy, GameProvider], 3);
  }

  /** Without the provider, Player's first field fails to resolve and Enemy is never reached. */
  lemma {:induction false} DemoMissingProvider()
    ensures var o := Bootstrap(map[], [Player, Enemy]);
      && o.failure == Some(Unresolved(HealthServiceType))
      && o.registry == map[]
      && o.candidates == [Player, Enemy]
  {
    var cs := [Player, Enemy];
    assert cs[1..] == [Enemy] && cs[1..][1..] == [];
    assert RegisterAll(map[], []) == RegisterOutcome(map[], None);
    assert RegisterAll(map[], [Enemy]) == RegisterOutcome(map[], None);
    assert RegisterAll(map[], cs) == RegisterOutcome(map[], None);
    assert Player.desc.fields[0].inject;
    assert IsInjectable(Player.desc);
    assert Injected(map[], Player) == InjectOutcome(Player.members, Some(Unresolved(HealthServiceType)));
  }

  /**
   * A second GameProvider, with instances of its own, makes Dictionary.Add
   * fail on the HealthService type: the registry keeps the first provider's
   * services and no component is injected.
   */
  lemma {:induction false} DemoDuplicateProvider()
    ensures var o := Bootstrap(map[], [GameProvider, Player, SecondGameProvider]);
      && o.failure == Some(DuplicateKey(HealthServiceType))
      && o.registry == DemoRegistry
      && o.candidates == [GameProvider, Player, SecondGameProvider]
  {
    var cs := [GameProvider, Player, SecondGameProvider];
    assert cs[1..] == [Player, SecondGameProvider] && cs[1..][1..] == [SecondGameProvider] && cs[1..][1..][1..] == [];
    GameProviderRegisters(map[], TheHealthService, TheWeaponService);
    GameProviderRegisters(DemoRegistry, Obj(3), Obj(4));
    assert map[][HealthServiceType := TheHealthService][WeaponServiceType := TheWeaponService] == DemoRegistry;
    assert RegisterAll(DemoRegistry, [SecondGameProvider]) == RegisterOutcome(DemoRegistry, Some(DuplicateKey(HealthServiceType)));
    assert RegisterAll(DemoRegistry, [Player, SecondGameProvider]) == RegisterOutcome(DemoRegistry, Some(DuplicateKey(HealthServiceType)));
    assert RegisterAll(map[], cs) == RegisterOutcome(DemoRegistry, Some(DuplicateKey(HealthServiceType)));
  }
}
