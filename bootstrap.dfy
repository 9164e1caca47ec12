/**
 * Awake: register every provider of the scene, then inject every injectable
 * component, with the first failure stopping everything that is left.
 */
module Bootstrapping {
  import opened Descriptors
  import opened Registration
  import opened Injection

  datatype BootOutcome = BootOutcome(registry: Registry, candidates: seq<Candidate>, failure: Option<Failure>)

  /**
   * Awake on a scene whose components are `cs`, starting from registry `reg`:
   * the registration loop runs to completion (or to its failure) before the
   * injection loop touches any component.
   */
  function Bootstrap(reg: Registry, cs: seq<Candidate>): (o: BootOutcome)
    requires AllFit(cs)
    ensures |o.candidates| == |cs| && AllFit(o.candidates)
    ensures forall j :: 0 <= j < |cs| ==> o.candidates[j].desc == cs[j].desc
    ensures reg.Keys <= o.registry.Keys
    ensures o.failure.Some? && !o.failure.value.Unresolved? ==> o.candidates == cs
  {
    var r := RegisterAll(reg, cs);
    if r.failure.Some? then BootOutcome(r.registry, cs, r.failure)
    else
      var s := InjectAll(r.registry, cs, 0);
      BootOutcome(r.registry, s.candidates, s.failure)
  }

  /**
   * The outcome of Awake in closed form: the registry is what registering all
   * provider methods in scene order yields; when registration fails no
   * component is touched; otherwise injection runs against that complete
   * registry, fail-fast, as SceneOutcomeAt describes.
   */
  ghost predicate BootOutcomeAt(reg: Registry, cs: seq<Candidate>, o: BootOutcome)
    requires AllFit(cs) && |o.candidates| == |cs|
  {
    var r := RegisterOps(reg, ProviderMethods(cs));
    && o.registry == r.registry
    && (r.failure.Some? ==> o.candidates == cs && o.failure == r.failure)
    && (r.failure.None? ==>
          SceneOutcomeAt(r.registry, cs, 0, FirstFailingCandidate(r.registry, cs, 0), SceneOutcome(o.candidates, o.failure)))
  }

  lemma BootstrapSpec(reg: Registry, cs: seq<Candidate>)
    requires AllFit(cs)
    ensures BootOutcomeAt(reg, cs, Bootstrap(reg, cs))
  {
    RegisterAllFlattens(reg, cs);
    var r := RegisterAll(reg, cs);
    if r.failure.None? {
      InjectAllSpec(r.registry, cs, 0);
    }
  }

  /**
   * Awake succeeds exactly when registration can go through and every
   * injectable component asks only for types the complete registry holds.
   */
  lemma BootstrapSucceedsIff(reg: Registry, cs: seq<Candidate>)
    requires AllFit(cs)
    ensures Bootstrap(reg, cs).failure.None? <==>
      && Registrable(reg, ProviderMethods(cs))
      && forall j :: 0 <= j < |cs| && IsInjectable(cs[j].desc) ==>
           Resolvable(RegisterOps(reg, ProviderMethods(cs)).registry, cs[j])
  {
    var ms := ProviderMethods(cs);
    RegisterAllFlattens(reg, cs);
    RegisterSucceedsIff(reg, ms);
    var r := RegisterOps(reg, ms);
    if r.failure.None? {
      var f := FirstFailingCandidate(r.registry, cs, 0);
      InjectAllSpec(r.registry, cs, 0);
      forall j | 0 <= j < |cs| && IsInjectable(cs[j].desc)
        ensures Injected(r.registry, cs[j]).failure.None? <==> Resolvable(r.registry, cs[j])
      {
        InjectSucceedsIff(r.registry, cs[j]);
      }
      if f < |cs| {
        assert !Resolvable(r.registry, cs[f]);
      }
    }
  }

  /**
   * After a successful Awake the registry holds exactly the earlier entries
   * plus one instance per [Provide] return type, and every injectable
   * component has been injected in full from it.
   */
  lemma BootstrapSuccess(reg: Registry, cs: seq<Candidate>)
    requires AllFit(cs) && Bootstrap(reg, cs).failure.None?
    ensures var o := Bootstrap(reg, cs);
      && o.registry.Keys == reg.Keys + ProvidedTypes(ProviderMethods(cs))
      && (forall k :: k in reg ==> k in o.registry && o.registry[k] == reg[k])
      && (forall j :: 0 <= j < |ProviderMethods(cs)| && ProviderMethods(cs)[j].provide ==>
            ProviderMethods(cs)[j].returnType in o.registry &&
            ProviderMethods(cs)[j].result == Some(o.registry[ProviderMethods(cs)[j].returnType]))
      && (forall j :: 0 <= j < |cs| && IsInjectable(cs[j].desc) ==>
            o.candidates[j] == Candidate(cs[j].desc, Injected(o.registry, cs[j]).members)
            && Injected(o.registry, cs[j]).failure.None?)
      && (forall j :: 0 <= j < |cs| && !IsInjectable(cs[j].desc) ==> o.candidates[j] == cs[j])
  {
    var o := Bootstrap(reg, cs);
    var ms := ProviderMethods(cs);
    var r := RegisterOps(reg, ms);
    BootstrapSpec(reg, cs);
    assert BootOutcomeAt(reg, cs, o);
    assert r.failure.None? && o.registry == r.registry;
    RegisterSuccess(reg, ms);
    RegisterKeepsEntries(reg, ms);
    FailureFreeScene(r.registry, cs, SceneOutcome(o.candidates, o.failure));
  }

  /** With no failure, SceneOutcomeAt says every injectable component was injected in full. */
  lemma FailureFreeScene(reg: Registry, cs: seq<Candidate>, s: SceneOutcome)
    requires AllFit(cs) && |s.candidates| == |cs| && s.failure.None?
    requires SceneOutcomeAt(reg, cs, 0, FirstFailingCandidate(reg, cs, 0), s)
    ensures forall j :: 0 <= j < |cs| && IsInjectable(cs[j].desc) ==>
      s.candidates[j] == Candidate(cs[j].desc, Injected(reg, cs[j]).members) && Injected(reg, cs[j]).failure.None?
    ensures forall j :: 0 <= j < |cs| && !IsInjectable(cs[j].desc) ==> s.candidates[j] == cs[j]
  {
    var f := FirstFailingCandidate(reg, cs, 0);
    if f < |cs| {
      assert false;
    }
  }
}
