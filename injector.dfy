/**
 * The Injector component and the scene components it wires. Register adds to
 * the registry in place, Inject writes into a component in place, and each is
 * proved against the value-level definitions of the Registration, Injection,
 * Bootstrapping and Validation modules.
 */
module DependencyInjection {
  import opened Descriptors
  import opened Registration
  import opened Injection
  import opened Bootstrapping
  import opened Validation

  /** A MonoBehaviour of the scene: its own descriptor and the state injection writes. */
  class Component {
    const desc: Descriptor
    var fields: seq<Option<Obj>>
    var properties: seq<Option<Obj>>
    var calls: seq<Call>

    ghost predicate Valid()
      reads this
    {
      |fields| == |desc.fields| && |properties| == |desc.properties|
    }

    /** The component's current state as a value. */
    function AsCandidate(): (c: Candidate)
      reads this
      ensures c.desc == desc && c.members == Members(fields, properties, calls)
      ensures Valid() ==> Fits(c)
    {
      Candidate(desc, Members(fields, properties, calls))
    }

    constructor (d: Descriptor, fs: seq<Option<Obj>>, ps: seq<Option<Obj>>)
      requires |fs| == |d.fields| && |ps| == |d.properties|
      ensures Valid() && desc == d && fields == fs && properties == ps && calls == []
    {
      desc, fields, properties, calls := d, fs, ps, [];
    }
  }

  /** The scene's components are distinct objects. */
  predicate Distinct(scene: seq<Component>) {
    forall j, k :: 0 <= j < k < |scene| ==> scene[j] != scene[k]
  }

  ghost predicate SceneValid(scene: seq<Component>)
    reads scene
  {
    forall j :: 0 <= j < |scene| ==> scene[j].Valid()
  }

  /** The scene's current state as a value. */
  function Snapshot(scene: seq<Component>): (cs: seq<Candidate>)
    reads scene
    ensures |cs| == |scene|
    ensures forall j :: 0 <= j < |scene| ==> cs[j] == scene[j].AsCandidate()
    ensures SceneValid(scene) ==> AllFit(cs)
    decreases |scene|
  {
    if scene == [] then [] else [scene[0].AsCandidate()] + Snapshot(scene[1..])
  }

  /** The scene loop of Awake has reached component `i` and will end in `target`. */
  ghost predicate InjectsTo(reg: Registry, scene: seq<Component>, i: nat, target: SceneOutcome)
    reads scene
  {
    i <= |scene| && SceneValid(scene) && InjectAll(reg, Snapshot(scene), i) == target
  }

  /** Passing over a component that is not injectable keeps the loop on course. */
  lemma InjectsToPass(reg: Registry, scene: seq<Component>, i: nat, target: SceneOutcome)
    requires InjectsTo(reg, scene, i, target) && i < |scene| && !IsInjectable(scene[i].desc)
    ensures InjectsTo(reg, scene, i + 1, target)
  {
    InjectAllPass(reg, Snapshot(scene), i);
  }

  /** At the end of the loop, the scene is the outcome. */
  lemma InjectsToEnd(reg: Registry, scene: seq<Component>, target: SceneOutcome)
    requires InjectsTo(reg, scene, |scene|, target)
    ensures SceneValid(scene) && SceneOutcome(Snapshot(scene), None) == target
  {
    InjectAllPass(reg, Snapshot(scene), |scene|);
  }

  /** The types the [Provide] methods of the first `i` components of the scene declare. */
  ghost predicate ProvidedUpTo(scene: seq<Component>, i: nat, provided: set<TypeKey>)
    reads scene
  {
    i <= |scene| && provided == ProvidedTypes(ProviderMethods(Snapshot(scene)[..i]))
  }

  /** Component `i` adds the return types of its [Provide] methods when it is a provider, and nothing otherwise. */
  lemma ProvidedUpToStep(scene: seq<Component>, i: nat, provided: set<TypeKey>)
    requires ProvidedUpTo(scene, i, provided) && i < |scene|
    ensures ProvidedUpTo(scene, i + 1,
      provided + ProvidedTypes(if scene[i].desc.isProvider then scene[i].desc.methods else []))
  {
    ProvidedAt(Snapshot(scene), i);
  }

  lemma ProvidedUpToEnd(scene: seq<Component>, provided: set<TypeKey>)
    requires ProvidedUpTo(scene, |scene|, provided)
    ensures provided == ProvidedTypes(ProviderMethods(Snapshot(scene)))
  {
    assert Snapshot(scene)[..|scene|] == Snapshot(scene);
  }

  class Injector {
    /** `_registry`: one instance per type. */
    var registry: Registry

    constructor ()
      ensures registry == map[]
    {
      registry := map[];
    }

    /**
     * Register: invoke each [Provide] method in order, adding its non-null
     * result under its return type; a null result or a type already present
     * stops the loop with the registry as it stands.
     */
    method Register(provider: Component) returns (failure: Option<Failure>)
      modifies this
      ensures RegisterOutcome(registry, failure) == RegisterOps(old(registry), provider.desc.methods)
    {
      var ms := provider.desc.methods;
      var i := 0;
      while i < |ms|
        invariant 0 <= i <= |ms|
        invariant RegisterOps(registry, ms[i..]) == RegisterOps(old(registry), ms)
      {
        assert ms[i..][1..] == ms[i + 1..];
        var m := ms[i];
        if m.provide {
          match m.result
          case None =>
            return Some(NullProvision(m.returnType));
          case Some(x) =>
            if m.returnType in registry {
              return Some(DuplicateKey(m.returnType));
            }
            registry := registry[m.returnType := x];
        }
        i := i + 1;
      }
      assert ms[i..] == [];
      return None;
    }

    /**
     * Inject: fill the null [Inject] fields, then overwrite the [Inject]
     * properties, then invoke the [Inject] methods with their resolved
     * parameters; the first type that does not resolve stops the component.
     */
    method Inject(c: Component) returns (failure: Option<Failure>)
      requires c.Valid()
      modifies c
      ensures c.Valid()
      ensures InjectOutcome(Members(c.fields, c.properties, c.calls), failure) == Injected(registry, old(c.AsCandidate()))
    {
      failure := InjectFields(c);
      if failure.Some? {
        return;
      }
      failure := InjectProperties(c);
      if failure.Some? {
        return;
      }
      failure := InjectMethods(c);
    }

    /** The field loop of Inject: fill each null [Inject] field with the registry's instance of its type. */
    method InjectFields(c: Component) returns (failure: Option<Failure>)
      requires c.Valid()
      modifies c
      ensures c.Valid() && c.properties == old(c.properties) && c.calls == old(c.calls)
      ensures Filled(c.fields, failure) == FieldsFrom(registry, c.desc.fields, old(c.fields), 0)
    {
      var fs := c.desc.fields;
      var i := 0;
      while i < |fs|
        invariant 0 <= i <= |fs| && |c.fields| == |fs|
        invariant FieldsFrom(registry, fs, c.fields, i) == FieldsFrom(registry, fs, old(c.fields), 0)
        invariant c.properties == old(c.properties) && c.calls == old(c.calls)
      {
        var f := fs[i];
        if f.inject && c.fields[i].None? {
          match Resolve(registry, f.fieldType)
          case Err(e) =>
            return Some(e);
          case Ok(x) =>
            c.fields := c.fields[i := Some(x)];
        }
        i := i + 1;
      }
      return None;
    }

    /** The property loop of Inject: overwrite each [Inject] property with the registry's instance of its type. */
    method InjectProperties(c: Component) returns (failure: Option<Failure>)
      requires c.Valid()
      modifies c
      ensures c.Valid() && c.fields == old(c.fields) && c.calls == old(c.calls)
      ensures Filled(c.properties, failure) == PropertiesFrom(registry, c.desc.properties, old(c.properties), 0)
    {
      var ps := c.desc.properties;
      var i := 0;
      while i < |ps|
        invariant 0 <= i <= |ps| && |c.properties| == |ps|
        invariant PropertiesFrom(registry, ps, c.properties, i) == PropertiesFrom(registry, ps, old(c.properties), 0)
        invariant c.fields == old(c.fields) && c.calls == old(c.calls)
      {
        var p := ps[i];
        if p.inject {
          match Resolve(registry, p.propertyType)
          case Err(e) =>
            return Some(e);
          case Ok(x) =>
            c.properties := c.properties[i := Some(x)];
        }
        i := i + 1;
      }
      return None;
    }

    /** The method loop of Inject: invoke each [Inject] method with its parameters resolved, in order. */
    method InjectMethods(c: Component) returns (failure: Option<Failure>)
      requires c.Valid()
      modifies c
      ensures c.Valid() && c.fields == old(c.fields) && c.properties == old(c.properties)
      ensures Invoked(c.calls, failure) == Invoked(old(c.calls) + MethodsFrom(registry, c.desc.methods, 0).calls,
        MethodsFrom(registry, c.desc.methods, 0).failure)
    {
      var ms := c.desc.methods;
      ghost var done: seq<Call> := [];
      var i := 0;
      while i < |ms|
        invariant 0 <= i <= |ms|
        invariant c.fields == old(c.fields) && c.properties == old(c.properties)
        invariant c.calls == old(c.calls) + done
        invariant MethodsFrom(registry, ms, 0) ==
          Invoked(done + MethodsFrom(registry, ms, i).calls, MethodsFrom(registry, ms, i).failure)
      {
        var m := ms[i];
        if m.inject {
          match ResolveAll(registry, m.parameters)
          case Err(e) =>
            return Some(e);
          case Ok(args) =>
            c.calls := c.calls + [Call(i, args)];
            done := done + [Call(i, args)];
        }
        i := i + 1;
      }
      return None;
    }

    /**
     * Awake: register every provider of the scene, then inject every
     * injectable component, in scene order; the first failure ends Awake.
     */
    method Awake(scene: seq<Component>) returns (failure: Option<Failure>)
      requires Distinct(scene) && SceneValid(scene)
      modifies this, scene
      ensures SceneValid(scene)
      ensures BootOutcome(registry, Snapshot(scene), failure) == Bootstrap(old(registry), old(Snapshot(scene)))
    {
      failure := RegisterProviders(scene);
      if failure.None? {
        failure := InjectInjectables(scene);
      }
    }

    /** The first loop of Awake: Register on each provider, in scene order, until one fails. */
    method RegisterProviders(scene: seq<Component>) returns (failure: Option<Failure>)
      modifies this
      ensures RegisterOutcome(registry, failure) == RegisterAll(old(registry), Snapshot(scene))
    {
      ghost var cs := Snapshot(scene);
      var i := 0;
      while i < |scene|
        invariant 0 <= i <= |scene|
        invariant RegisterAll(registry, cs[i..]) == RegisterAll(old(registry), cs)
      {
        RegisterAllAt(registry, cs, i);
        if scene[i].desc.isProvider {
          failure := Register(scene[i]);
          if failure.Some? {
            return;
          }
        }
        i := i + 1;
      }
      assert cs[i..] == [];
      return None;
    }

    /** The second loop of Awake: Inject on each injectable component, in scene order, until one fails. */
    method InjectInjectables(scene: seq<Component>) returns (failure: Option<Failure>)
      requires Distinct(scene) && SceneValid(scene)
      modifies scene
      ensures SceneValid(scene)
      ensures SceneOutcome(Snapshot(scene), failure) == InjectAll(registry, old(Snapshot(scene)), 0)
    {
      ghost var target := InjectAll(registry, Snapshot(scene), 0);
      var i := 0;
      while i < |scene|
        invariant InjectsTo(registry, scene, i, target)
      {
        if IsInjectable(scene[i].desc) {
          failure := InjectAt(scene, i, target);
          if failure.Some? {
            return;
          }
        } else {
          InjectsToPass(registry, scene, i, target);
        }
        i := i + 1;
      }
      InjectsToEnd(registry, scene, target);
      return None;
    }

    /** One round of the second loop of Awake: Inject on component `i`, which changes no other component. */
    method InjectAt(scene: seq<Component>, i: nat, ghost target: SceneOutcome) returns (failure: Option<Failure>)
      requires Distinct(scene) && i < |scene| && IsInjectable(scene[i].desc)
      requires InjectsTo(registry, scene, i, target)
      modifies scene[i]
      ensures failure.Some? ==> SceneValid(scene) && SceneOutcome(Snapshot(scene), failure) == target
      ensures failure.None? ==> InjectsTo(registry, scene, i + 1, target)
    {
      ghost var before := Snapshot(scene);
      failure := Inject(scene[i]);
      forall j | 0 <= j < |scene| && j != i
        ensures scene[j].AsCandidate() == old(scene[j].AsCandidate()) && scene[j].Valid()
      {
        assert scene[j] != scene[i];
      }
      InjectAllOneStep(registry, before, Snapshot(scene), i, failure);
    }

    /** GetProvidedDependencies: the [Provide] return types of the scene's providers, none invoked. */
    method GetProvidedDependencies(scene: seq<Component>) returns (provided: set<TypeKey>)
      ensures provided == ProvidedTypes(ProviderMethods(Snapshot(scene)))
    {
      provided := {};
      var i := 0;
      while i < |scene|
        invariant ProvidedUpTo(scene, i, provided)
      {
        var own: seq<MethodInfo> := [];
        if scene[i].desc.isProvider {
          own := scene[i].desc.methods;
        }
        ghost var start := provided;
        provided := AddProvided(provided, own);
        ProvidedUpToStep(scene, i, start);
        i := i + 1;
      }
      ProvidedUpToEnd(scene, provided);
    }

    /** The inner loop of GetProvidedDependencies: add the return type of each [Provide] method of one provider. */
    method AddProvided(start: set<TypeKey>, own: seq<MethodInfo>) returns (provided: set<TypeKey>)
      ensures provided == start + ProvidedTypes(own)
    {
      provided := start;
      var k := 0;
      while k < |own|
        invariant 0 <= k <= |own|
        invariant provided == start + ProvidedTypes(own[..k])
      {
        ProvidedTypesSnocUnion(start, own, k);
        if own[k].provide {
          provided := provided + {own[k].returnType};
        }
        k := k + 1;
      }
      assert own[..k] == own;
    }

    /** ValidateDependencies: report the null [Inject] fields whose type no provider declares. */
    method ValidateDependencies(scene: seq<Component>) returns (report: Report)
      requires SceneValid(scene)
      ensures report == Validate(Snapshot(scene))
    {
      var provided := GetProvidedDependencies(scene);
      var invalid := MissingDependencies(Snapshot(scene), provided, 0);
      if invalid == [] {
        report := AllValid;
      } else {
        report := Invalid(invalid);
      }
    }
  }
}
