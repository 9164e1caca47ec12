/**
 * The injection phase: Inject on one component (its field, property and
 * method loops) and the injection loop of Awake over the scene. Each loop is a
 * function from the index it has reached; each comes with a lemma giving its
 * outcome in closed form, in terms of the first member (or component) that
 * cannot be resolved.
 */
module Injection {
  import opened Descriptors
  import opened Registration

  datatype Filled = Filled(values: seq<Option<Obj>>, failure: Option<Failure>)

  // ---------------------------------------------------------------- fields

  /** An [Inject] field that is still null and whose type is not registered. */
  predicate MissingField(reg: Registry, f: FieldInfo, v: Option<Obj>) {
    f.inject && v.None? && f.fieldType !in reg
  }

  /**
   * The field loop of Inject from field `i` on: a field already holding a
   * value is skipped, a null [Inject] field receives the resolved instance, and
   * the first unresolved type stops the loop.
   */
  function FieldsFrom(reg: Registry, fs: seq<FieldInfo>, vs: seq<Option<Obj>>, i: nat): (o: Filled)
    requires |vs| == |fs| && i <= |fs|
    ensures |o.values| == |vs|
    ensures o.failure.Some? ==> o.failure.value.Unresolved? && o.failure.value.key !in reg
    decreases |fs| - i
  {
    if i == |fs| then Filled(vs, None)
    else if !fs[i].inject || vs[i].Some? then FieldsFrom(reg, fs, vs, i + 1)
    else
      match Resolve(reg, fs[i].fieldType)
      case Err(e) => Filled(vs, Some(e))
      case Ok(x) => FieldsFrom(reg, fs, vs[i := Some(x)], i + 1)
  }

  /** The first field at or after `i` that cannot be injected, or |fs| if there is none. */
  function FirstMissingField(reg: Registry, fs: seq<FieldInfo>, vs: seq<Option<Obj>>, i: nat): (f: nat)
    requires |vs| == |fs| && i <= |fs|
    ensures i <= f <= |fs|
    ensures forall j :: i <= j < f ==> !MissingField(reg, fs[j], vs[j])
    ensures f < |fs| ==> MissingField(reg, fs[f], vs[f])
    decreases |fs| - i
  {
    if i == |fs| || MissingField(reg, fs[i], vs[i]) then i else FirstMissingField(reg, fs, vs, i + 1)
  }

  lemma {:induction false} FirstMissingFieldFrame(reg: Registry, fs: seq<FieldInfo>, vs: seq<Option<Obj>>, ws: seq<Option<Obj>>, i: nat)
    requires |vs| == |fs| && |ws| == |fs| && i <= |fs|
    requires forall j :: i <= j < |fs| ==> vs[j] == ws[j]
    ensures FirstMissingField(reg, fs, vs, i) == FirstMissingField(reg, fs, ws, i)
    decreases |fs| - i
  {
    if i < |fs| {
      FirstMissingFieldFrame(reg, fs, vs, ws, i + 1);
    }
  }

  /**
   * Field injection in closed form, with f the first field that cannot be
   * injected: a field already set, not marked, or not reached is left as it
   * was; every null [Inject] field before f holds exactly the registry's
   * instance for its type; the loop fails with Unresolved on field f.
   */
  ghost predicate FieldsOutcome(reg: Registry, fs: seq<FieldInfo>, vs: seq<Option<Obj>>, i: nat, f: nat, o: Filled)
    requires |vs| == |fs| == |o.values| && i <= f <= |fs|
  {
    && (forall j :: 0 <= j < |vs| && (j < i || f <= j || !fs[j].inject || vs[j].Some?) ==> o.values[j] == vs[j])
    && (forall j :: i <= j < f && fs[j].inject && vs[j].None? ==>
          fs[j].fieldType in reg && o.values[j] == Some(reg[fs[j].fieldType]))
    && o.failure == (if f < |fs| then Some(Unresolved(fs[f].fieldType)) else None)
  }

  lemma {:induction false} FieldsFromSpec(reg: Registry, fs: seq<FieldInfo>, vs: seq<Option<Obj>>, i: nat)
    requires |vs| == |fs| && i <= |fs|
    ensures FieldsOutcome(reg, fs, vs, i, FirstMissingField(reg, fs, vs, i), FieldsFrom(reg, fs, vs, i))
    decreases |fs| - i
  {
    if i < |fs| {
      if !fs[i].inject || vs[i].Some? {
        FieldsFromSpec(reg, fs, vs, i + 1);
        FieldsSkipStep(reg, fs, vs, i);
      } else if fs[i].fieldType in reg {
        var ws := vs[i := Some(reg[fs[i].fieldType])];
        FieldsFromSpec(reg, fs, ws, i + 1);
        FirstMissingFieldFrame(reg, fs, vs, ws, i + 1);
        FieldsFillStep(reg, fs, vs, i);
      }
    }
  }

  /** The step of FieldsFromSpec that passes over field `i`, unmarked or already set. */
  lemma {:induction false} FieldsSkipStep(reg: Registry, fs: seq<FieldInfo>, vs: seq<Option<Obj>>, i: nat)
    requires |vs| == |fs| && i < |fs| && (!fs[i].inject || vs[i].Some?)
    requires FieldsOutcome(reg, fs, vs, i + 1, FirstMissingField(reg, fs, vs, i + 1), FieldsFrom(reg, fs, vs, i + 1))
    ensures FieldsOutcome(reg, fs, vs, i, FirstMissingField(reg, fs, vs, i), FieldsFrom(reg, fs, vs, i))
  {
    assert FieldsFrom(reg, fs, vs, i) == FieldsFrom(reg, fs, vs, i + 1);
    assert FirstMissingField(reg, fs, vs, i) == FirstMissingField(reg, fs, vs, i + 1);
  }

  /** The step of FieldsFromSpec that fills null [Inject] field `i`. */
  lemma {:induction false} FieldsFillStep(reg: Registry, fs: seq<FieldInfo>, vs: seq<Option<Obj>>, i: nat)
    requires |vs| == |fs| && i < |fs| && fs[i].inject && vs[i].None? && fs[i].fieldType in reg
    requires var ws := vs[i := Some(reg[fs[i].fieldType])];
      && FirstMissingField(reg, fs, ws, i + 1) == FirstMissingField(reg, fs, vs, i + 1)
      && FieldsOutcome(reg, fs, ws, i + 1, FirstMissingField(reg, fs, ws, i + 1), FieldsFrom(reg, fs, ws, i + 1))
    ensures FieldsOutcome(reg, fs, vs, i, FirstMissingField(reg, fs, vs, i), FieldsFrom(reg, fs, vs, i))
  {
    var ws := vs[i := Some(reg[fs[i].fieldType])];
    assert FieldsFrom(reg, fs, vs, i) == FieldsFrom(reg, fs, ws, i + 1);
    assert FirstMissingField(reg, fs, vs, i) == FirstMissingField(reg, fs, vs, i + 1);
  }

  // ------------------------------------------------------------ properties

  /**
   * The property loop of Inject from property `i` on: every [Inject] property
   * is written with the resolved instance, whatever it held; the first
   * unresolved type stops the loop.
   */
  function PropertiesFrom(reg: Registry, ps: seq<PropertyInfo>, vs: seq<Option<Obj>>, i: nat): (o: Filled)
    requires |vs| == |ps| && i <= |ps|
    ensures |o.values| == |vs|
    ensures o.failure.Some? ==> o.failure.value.Unresolved? && o.failure.value.key !in reg
    decreases |ps| - i
  {
    if i == |ps| then Filled(vs, None)
    else if !ps[i].inject then PropertiesFrom(reg, ps, vs, i + 1)
    else
      match Resolve(reg, ps[i].propertyType)
      case Err(e) => Filled(vs, Some(e))
      case Ok(x) => PropertiesFrom(reg, ps, vs[i := Some(x)], i + 1)
  }

  /** The first [Inject] property at or after `i` whose type is not registered, or |ps|. */
  function FirstMissingProperty(reg: Registry, ps: seq<PropertyInfo>, i: nat): (f: nat)
    requires i <= |ps|
    ensures i <= f <= |ps|
    ensures forall j :: i <= j < f && ps[j].inject ==> ps[j].propertyType in reg
    ensures f < |ps| ==> ps[f].inject && ps[f].propertyType !in reg
    decreases |ps| - i
  {
    if i == |ps| || (ps[i].inject && ps[i].propertyType !in reg) then i
    else FirstMissingProperty(reg, ps, i + 1)
  }

  /**
   * Property injection in closed form, with f the first unresolvable [Inject]
   * property: every [Inject] property before f is overwritten with the
   * registry's instance, every other property is left as it was, and the loop
   * fails with Unresolved on property f.
   */
  ghost predicate PropertiesOutcome(reg: Registry, ps: seq<PropertyInfo>, vs: seq<Option<Obj>>, i: nat, f: nat, o: Filled)
    requires |vs| == |ps| == |o.values| && i <= f <= |ps|
  {
    && (forall j :: 0 <= j < |vs| && (j < i || f <= j || !ps[j].inject) ==> o.values[j] == vs[j])
    && (forall j :: i <= j < f && ps[j].inject ==>
          ps[j].propertyType in reg && o.values[j] == Some(reg[ps[j].propertyType]))
    && o.failure == (if f < |ps| then Some(Unresolved(ps[f].propertyType)) else None)
  }

  lemma {:induction false} PropertiesFromSpec(reg: Registry, ps: seq<PropertyInfo>, vs: seq<Option<Obj>>, i: nat)
    requires |vs| == |ps| && i <= |ps|
    ensures PropertiesOutcome(reg, ps, vs, i, FirstMissingProperty(reg, ps, i), PropertiesFrom(reg, ps, vs, i))
    decreases |ps| - i
  {
    if i < |ps| {
      if !ps[i].inject {
        PropertiesFromSpec(reg, ps, vs, i + 1);
        PropertiesSkipStep(reg, ps, vs, i);
      } else if ps[i].propertyType in reg {
        PropertiesFromSpec(reg, ps, vs[i := Some(reg[ps[i].propertyType])], i + 1);
        PropertiesFillStep(reg, ps, vs, i);
      }
    }
  }

  /** The step of PropertiesFromSpec that passes over a property not marked [Inject]. */
  lemma {:induction false} PropertiesSkipStep(reg: Registry, ps: seq<PropertyInfo>, vs: seq<Option<Obj>>, i: nat)
    requires |vs| == |ps| && i < |ps| && !ps[i].inject
    requires PropertiesOutcome(reg, ps, vs, i + 1, FirstMissingProperty(reg, ps, i + 1), PropertiesFrom(reg, ps, vs, i + 1))
    ensures PropertiesOutcome(reg, ps, vs, i, FirstMissingProperty(reg, ps, i), PropertiesFrom(reg, ps, vs, i))
  {
    assert PropertiesFrom(reg, ps, vs, i) == PropertiesFrom(reg, ps, vs, i + 1);
    assert FirstMissingProperty(reg, ps, i) == FirstMissingProperty(reg, ps, i + 1);
  }

  /** The step of PropertiesFromSpec that writes [Inject] property `i`. */
  lemma {:induction false} PropertiesFillStep(reg: Registry, ps: seq<PropertyInfo>, vs: seq<Option<Obj>>, i: nat)
    requires |vs| == |ps| && i < |ps| && ps[i].inject && ps[i].propertyType in reg
    requires var ws := vs[i := Some(reg[ps[i].propertyType])];
      PropertiesOutcome(reg, ps, ws, i + 1, FirstMissingProperty(reg, ps, i + 1), PropertiesFrom(reg, ps, ws, i + 1))
    ensures PropertiesOutcome(reg, ps, vs, i, FirstMissingProperty(reg, ps, i), PropertiesFrom(reg, ps, vs, i))
  {
    var ws := vs[i := Some(reg[ps[i].propertyType])];
    assert PropertiesFrom(reg, ps, vs, i) == PropertiesFrom(reg, ps, ws, i + 1);
    assert FirstMissingProperty(reg, ps, i) == FirstMissingProperty(reg, ps, i + 1);
  }

  // --------------------------------------------------------------- methods

  datatype Invoked = Invoked(calls: seq<Call>, failure: Option<Failure>)

  /**
   * The method loop of Inject from method `i` on: the parameters of each
   * [Inject] method are resolved in order and the method is invoked with
   * them; the first parameter that does not resolve stops the loop before the
   * method is invoked.
   */
  function MethodsFrom(reg: Registry, ms: seq<MethodInfo>, i: nat): (o: Invoked)
    requires i <= |ms|
    ensures o.failure.Some? ==> o.failure.value.Unresolved? && o.failure.value.key !in reg
    decreases |ms| - i
  {
    if i == |ms| then Invoked([], None)
    else if !ms[i].inject then MethodsFrom(reg, ms, i + 1)
    else
      match ResolveAll(reg, ms[i].parameters)
      case Err(e) => Invoked([], Some(e))
      case Ok(args) =>
        var rest := MethodsFrom(reg, ms, i + 1);
        Invoked([Call(i, args)] + rest.calls, rest.failure)
  }

  /** An [Inject] method with a parameter type that is not registered. */
  predicate FailingMethod(reg: Registry, m: MethodInfo) {
    m.inject && !AllRegistered(reg, m.parameters)
  }

  /** The first method at or after `i` that cannot be invoked, or |ms|. */
  function FirstFailingMethod(reg: Registry, ms: seq<MethodInfo>, i: nat): (f: nat)
    requires i <= |ms|
    ensures i <= f <= |ms|
    ensures forall j :: i <= j < f ==> !FailingMethod(reg, ms[j])
    ensures f < |ms| ==> FailingMethod(reg, ms[f])
    decreases |ms| - i
  {
    if i == |ms| || FailingMethod(reg, ms[i]) then i else FirstFailingMethod(reg, ms, i + 1)
  }

  /** `c` invokes an [Inject] method with index in [lo, hi), with the registry's instances of its parameter types, in order. */
  predicate InvokesResolved(reg: Registry, ms: seq<MethodInfo>, lo: nat, hi: nat, c: Call) {
    && lo <= c.methodIndex < hi
    && c.methodIndex < |ms|
    && ms[c.methodIndex].inject
    && AllRegistered(reg, ms[c.methodIndex].parameters)
    && |c.args| == |ms[c.methodIndex].parameters|
    && forall u :: 0 <= u < |c.args| ==> c.args[u] == reg[ms[c.methodIndex].parameters[u]]
  }

  /** Every invocation in `calls` is of an [Inject] method in [lo, hi), with its resolved arguments. */
  ghost predicate CallsResolved(reg: Registry, ms: seq<MethodInfo>, lo: nat, hi: nat, calls: seq<Call>) {
    forall t :: 0 <= t < |calls| ==> InvokesResolved(reg, ms, lo, hi, calls[t])
  }

  /** The invocations are in method order, so no method is invoked twice. */
  ghost predicate CallsAscending(calls: seq<Call>) {
    forall t, t' :: 0 <= t < t' < |calls| ==> calls[t].methodIndex < calls[t'].methodIndex
  }

  /** Every [Inject] method in [lo, hi) is invoked. */
  ghost predicate CallsCover(ms: seq<MethodInfo>, lo: nat, hi: nat, calls: seq<Call>)
    requires hi <= |ms|
  {
    forall j :: lo <= j < hi && ms[j].inject ==> exists t :: 0 <= t < |calls| && calls[t].methodIndex == j
  }

  /**
   * Method injection in closed form, with f the first method that cannot be
   * invoked: the invocations are exactly the [Inject] methods from `i` up to f,
   * each once, in order, each with its resolved arguments in parameter order;
   * method f is not invoked and the loop fails with Unresolved on its first
   * missing parameter type.
   */
  ghost predicate MethodsOutcome(reg: Registry, ms: seq<MethodInfo>, i: nat, f: nat, o: Invoked)
    requires i <= f <= |ms|
    requires f < |ms| ==> FailingMethod(reg, ms[f])
  {
    && CallsResolved(reg, ms, i, f, o.calls)
    && CallsAscending(o.calls)
    && CallsCover(ms, i, f, o.calls)
    && o.failure == (if f < |ms| then Some(ResolveAll(reg, ms[f].parameters).error) else None)
  }

  lemma {:induction false} MethodsFromSpec(reg: Registry, ms: seq<MethodInfo>, i: nat)
    requires i <= |ms|
    ensures MethodsOutcome(reg, ms, i, FirstFailingMethod(reg, ms, i), MethodsFrom(reg, ms, i))
    decreases |ms| - i
  {
    if i < |ms| {
      if !ms[i].inject {
        MethodsFromSpec(reg, ms, i + 1);
        MethodsSkipStep(reg, ms, i);
      } else if AllRegistered(reg, ms[i].parameters) {
        MethodsFromSpec(reg, ms, i + 1);
        MethodsCallStep(reg, ms, i);
      } else {
        assert FirstFailingMethod(reg, ms, i) == i;
        assert MethodsFrom(reg, ms, i) == Invoked([], Some(ResolveAll(reg, ms[i].parameters).error));
      }
    }
  }

  /** The step of MethodsFromSpec that passes over a method not marked [Inject]. */
  lemma {:induction false} MethodsSkipStep(reg: Registry, ms: seq<MethodInfo>, i: nat)
    requires i < |ms| && !ms[i].inject
    requires MethodsOutcome(reg, ms, i + 1, FirstFailingMethod(reg, ms, i + 1), MethodsFrom(reg, ms, i + 1))
    ensures MethodsOutcome(reg, ms, i, FirstFailingMethod(reg, ms, i), MethodsFrom(reg, ms, i))
  {
    assert FirstFailingMethod(reg, ms, i) == FirstFailingMethod(reg, ms, i + 1);
    assert MethodsFrom(reg, ms, i) == MethodsFrom(reg, ms, i + 1);
  }

  /** The step of MethodsFromSpec that invokes [Inject] method `i` with its resolved parameters. */
  lemma {:induction false} MethodsCallStep(reg: Registry, ms: seq<MethodInfo>, i: nat)
    requires i < |ms| && ms[i].inject && AllRegistered(reg, ms[i].parameters)
    requires MethodsOutcome(reg, ms, i + 1, FirstFailingMethod(reg, ms, i + 1), MethodsFrom(reg, ms, i + 1))
    ensures MethodsOutcome(reg, ms, i, FirstFailingMethod(reg, ms, i), MethodsFrom(reg, ms, i))
  {
    var f := FirstFailingMethod(reg, ms, i);
    assert f == FirstFailingMethod(reg, ms, i + 1);
    var rest := MethodsFrom(reg, ms, i + 1);
    var first := Call(i, ResolveAll(reg, ms[i].parameters).value);
    assert MethodsFrom(reg, ms, i) == Invoked([first] + rest.calls, rest.failure);
    ResolvedStep(reg, ms, i, f, first, rest.calls);
    AscendingStep(reg, ms, i, f, first, rest.calls);
    CoverStep(ms, i, f, first, rest.calls);
  }

  lemma ResolvedStep(reg: Registry, ms: seq<MethodInfo>, i: nat, f: nat, first: Call, rest: seq<Call>)
    requires i < f <= |ms| && InvokesResolved(reg, ms, i, f, first)
    requires CallsResolved(reg, ms, i + 1, f, rest)
    ensures CallsResolved(reg, ms, i, f, [first] + rest)
  {
    var calls := [first] + rest;
    forall t | 0 <= t < |calls|
      ensures InvokesResolved(reg, ms, i, f, calls[t])
    {
      if t > 0 {
        assert calls[t] == rest[t - 1];
      }
    }
  }

  lemma AscendingStep(reg: Registry, ms: seq<MethodInfo>, i: nat, f: nat, first: Call, rest: seq<Call>)
    requires first.methodIndex == i
    requires CallsResolved(reg, ms, i + 1, f, rest) && CallsAscending(rest)
    ensures CallsAscending([first] + rest)
  {
    var calls := [first] + rest;
    forall t, t' | 0 <= t < t' < |calls|
      ensures calls[t].methodIndex < calls[t'].methodIndex
    {
      assert calls[t'] == rest[t' - 1];
      assert InvokesResolved(reg, ms, i + 1, f, rest[t' - 1]);
      if t > 0 {
        assert calls[t] == rest[t - 1];
      }
    }
  }

  lemma CoverStep(ms: seq<MethodInfo>, i: nat, f: nat, first: Call, rest: seq<Call>)
    requires i < f <= |ms| && first.methodIndex == i
    requires CallsCover(ms, i + 1, f, rest)
    ensures CallsCover(ms, i, f, [first] + rest)
  {
    var calls := [first] + rest;
    forall j | i <= j < f && ms[j].inject
      ensures exists t :: 0 <= t < |calls| && calls[t].methodIndex == j
    {
      if j == i {
        assert calls[0].methodIndex == j;
      } else {
        var t :| 0 <= t < |rest| && rest[t].methodIndex == j;
        assert calls[t + 1] == rest[t];
      }
    }
  }

  // ------------------------------------------------------ one component

  datatype InjectOutcome = InjectOutcome(members: Members, failure: Option<Failure>)

  /**
   * Inject on one component: fields, then properties, then methods; a failure
   * in one loop skips the loops after it, and writes already made stay.
   */
  function Injected(reg: Registry, c: Candidate): (o: InjectOutcome)
    requires Fits(c)
    ensures Fits(Candidate(c.desc, o.members))
    ensures |c.members.calls| <= |o.members.calls| && o.members.calls[..|c.members.calls|] == c.members.calls
    ensures o.failure.Some? ==> o.failure.value.Unresolved? && o.failure.value.key !in reg
  {
    var d, m := c.desc, c.members;
    var f := FieldsFrom(reg, d.fields, m.fields, 0);
    if f.failure.Some? then InjectOutcome(m.(fields := f.values), f.failure)
    else
      var p := PropertiesFrom(reg, d.properties, m.properties, 0);
      if p.failure.Some? then InjectOutcome(m.(fields := f.values, properties := p.values), p.failure)
      else
        var r := MethodsFrom(reg, d.methods, 0);
        InjectOutcome(Members(f.values, p.values, m.calls + r.calls), r.failure)
  }

  /** Every type the component's injection asks for is registered. */
  ghost predicate Resolvable(reg: Registry, c: Candidate)
    requires Fits(c)
  {
    && (forall j :: 0 <= j < |c.desc.fields| ==> !MissingField(reg, c.desc.fields[j], c.members.fields[j]))
    && (forall j :: 0 <= j < |c.desc.properties| && c.desc.properties[j].inject ==> c.desc.properties[j].propertyType in reg)
    && (forall j :: 0 <= j < |c.desc.methods| ==> !FailingMethod(reg, c.desc.methods[j]))
  }

  /** Inject fails on a component exactly when one of the types it asks for is not registered. */
  lemma {:induction false} InjectSucceedsIff(reg: Registry, c: Candidate)
    requires Fits(c)
    ensures Injected(reg, c).failure.None? <==> Resolvable(reg, c)
  {
    FieldsFromSpec(reg, c.desc.fields, c.members.fields, 0);
    PropertiesFromSpec(reg, c.desc.properties, c.members.properties, 0);
    MethodsFromSpec(reg, c.desc.methods, 0);
  }

  /**
   * After a successful Inject, every [Inject] field holds a value (its own, if
   * it had one, otherwise the registry's instance), every [Inject] property
   * holds the registry's instance, and earlier invocations are kept.
   */
  lemma {:induction false} InjectSuccess(reg: Registry, c: Candidate)
    requires Fits(c) && Injected(reg, c).failure.None?
    ensures var m, fs, ps := Injected(reg, c).members, c.desc.fields, c.desc.properties;
      && (forall j :: 0 <= j < |fs| && fs[j].inject && c.members.fields[j].Some? ==> m.fields[j] == c.members.fields[j])
      && (forall j :: 0 <= j < |fs| && fs[j].inject && c.members.fields[j].None? ==>
            fs[j].fieldType in reg && m.fields[j] == Some(reg[fs[j].fieldType]))
      && (forall j :: 0 <= j < |fs| && !fs[j].inject ==> m.fields[j] == c.members.fields[j])
      && (forall j :: 0 <= j < |ps| && ps[j].inject ==> ps[j].propertyType in reg && m.properties[j] == Some(reg[ps[j].propertyType]))
      && (forall j :: 0 <= j < |ps| && !ps[j].inject ==> m.properties[j] == c.members.properties[j])
      && |c.members.calls| <= |m.calls| && m.calls[..|c.members.calls|] == c.members.calls
      && MethodsOutcome(reg, c.desc.methods, 0, |c.desc.methods|, Invoked(m.calls[|c.members.calls|..], None))
  {
    FieldsFromSpec(reg, c.desc.fields, c.members.fields, 0);
    PropertiesFromSpec(reg, c.desc.properties, c.members.properties, 0);
    MethodsFromSpec(reg, c.desc.methods, 0);
    var m := Injected(reg, c).members;
    assert m.calls[|c.members.calls|..] == MethodsFrom(reg, c.desc.methods, 0).calls;
  }

  lemma {:induction false} NoInjectMethodNoCalls(reg: Registry, ms: seq<MethodInfo>, i: nat)
    requires i <= |ms| && forall j :: 0 <= j < |ms| ==> !ms[j].inject
    ensures MethodsFrom(reg, ms, i) == Invoked([], None)
    decreases |ms| - i
  {
    if i < |ms| {
      NoInjectMethodNoCalls(reg, ms, i + 1);
    }
  }

  /** A component without any [Inject] member is left exactly as it was: the IsInjectable filter only saves work. */
  lemma {:induction false} NonInjectableUntouched(reg: Registry, c: Candidate)
    requires Fits(c) && !IsInjectable(c.desc)
    ensures Injected(reg, c) == InjectOutcome(c.members, None)
  {
    var d, m := c.desc, c.members;
    FieldsFromSpec(reg, d.fields, m.fields, 0);
    PropertiesFromSpec(reg, d.properties, m.properties, 0);
    var r := MethodsFrom(reg, d.methods, 0);
    NoInjectMethodNoCalls(reg, d.methods, 0);
    assert FieldsFrom(reg, d.fields, m.fields, 0).values == m.fields;
    assert PropertiesFrom(reg, d.properties, m.properties, 0).values == m.properties;
    assert m.calls + r.calls == m.calls;
  }

  // ------------------------------------------------------------ the scene

  datatype SceneOutcome = SceneOutcome(candidates: seq<Candidate>, failure: Option<Failure>)

  /**
   * The injection loop of Awake from component `i` on: Inject on every
   * injectable component in scene order, stopping at the first failure.
   */
  function InjectAll(reg: Registry, cs: seq<Candidate>, i: nat): (o: SceneOutcome)
    requires AllFit(cs) && i <= |cs|
    ensures |o.candidates| == |cs| && AllFit(o.candidates)
    ensures forall j :: 0 <= j < |cs| ==> o.candidates[j].desc == cs[j].desc
    ensures o.failure.Some? ==> o.failure.value.Unresolved? && o.failure.value.key !in reg
    decreases |cs| - i
  {
    if i == |cs| then SceneOutcome(cs, None)
    else if !IsInjectable(cs[i].desc) then InjectAll(reg, cs, i + 1)
    else
      var r := Injected(reg, cs[i]);
      var cs' := cs[i := Candidate(cs[i].desc, r.members)];
      if r.failure.Some? then SceneOutcome(cs', r.failure) else InjectAll(reg, cs', i + 1)
  }

  predicate FailsInjection(reg: Registry, c: Candidate)
    requires Fits(c)
  {
    IsInjectable(c.desc) && Injected(reg, c).failure.Some?
  }

  /** The first injectable component at or after `i` whose Inject fails, or |cs|. */
  function FirstFailingCandidate(reg: Registry, cs: seq<Candidate>, i: nat): (f: nat)
    requires AllFit(cs) && i <= |cs|
    ensures i <= f <= |cs|
    ensures forall j :: i <= j < f ==> !FailsInjection(reg, cs[j])
    ensures f < |cs| ==> FailsInjection(reg, cs[f])
    decreases |cs| - i
  {
    if i == |cs| || FailsInjection(reg, cs[i]) then i else FirstFailingCandidate(reg, cs, i + 1)
  }

  lemma {:induction false} FirstFailingCandidateFrame(reg: Registry, cs: seq<Candidate>, ds: seq<Candidate>, i: nat)
    requires AllFit(cs) && AllFit(ds) && |cs| == |ds| && i <= |cs|
    requires forall j :: i <= j < |cs| ==> cs[j] == ds[j]
    ensures FirstFailingCandidate(reg, cs, i) == FirstFailingCandidate(reg, ds, i)
    decreases |cs| - i
  {
    if i < |cs| {
      FirstFailingCandidateFrame(reg, cs, ds, i + 1);
    }
  }

  /**
   * Fail-fast across the scene, with f the first injectable component whose
   * Inject fails: every injectable component from `i` up to f is injected
   * completely, component f keeps the writes made before its failure, and
   * nothing after f (nor any non-injectable component, nor any before `i`) is
   * touched; the loop's failure is f's.
   */
  ghost predicate SceneOutcomeAt(reg: Registry, cs: seq<Candidate>, i: nat, f: nat, o: SceneOutcome)
    requires AllFit(cs) && i <= f <= |cs| && |o.candidates| == |cs|
  {
    && (forall j :: 0 <= j < |cs| && (j < i || f < j || !IsInjectable(cs[j].desc)) ==> o.candidates[j] == cs[j])
    && (forall j :: i <= j < |cs| && j <= f && IsInjectable(cs[j].desc) ==>
          o.candidates[j] == Candidate(cs[j].desc, Injected(reg, cs[j]).members))
    && o.failure == (if f < |cs| then Injected(reg, cs[f]).failure else None)
  }

  lemma {:induction false} InjectAllSpec(reg: Registry, cs: seq<Candidate>, i: nat)
    requires AllFit(cs) && i <= |cs|
    ensures SceneOutcomeAt(reg, cs, i, FirstFailingCandidate(reg, cs, i), InjectAll(reg, cs, i))
    decreases |cs| - i, 1
  {
    if i < |cs| {
      if !IsInjectable(cs[i].desc) {
        InjectAllSpec(reg, cs, i + 1);
        InjectAllSkip(reg, cs, i);
      } else if Injected(reg, cs[i]).failure.None? {
        InjectAllContinue(reg, cs, i);
      } else {
        InjectAllStop(reg, cs, i);
      }
    }
  }

  /** The case of InjectAllSpec where component `i` is injected without failure and the loop goes on. */
  lemma {:induction false} InjectAllContinue(reg: Registry, cs: seq<Candidate>, i: nat)
    requires AllFit(cs) && i < |cs| && IsInjectable(cs[i].desc) && Injected(reg, cs[i]).failure.None?
    ensures SceneOutcomeAt(reg, cs, i, FirstFailingCandidate(reg, cs, i), InjectAll(reg, cs, i))
    decreases |cs| - i, 0
  {
    var cs' := cs[i := Candidate(cs[i].desc, Injected(reg, cs[i]).members)];
    InjectAllSpec(reg, cs', i + 1);
    FirstFailingCandidateFrame(reg, cs, cs', i + 1);
    InjectAllStep(reg, cs, cs', i);
  }

  lemma {:induction false} InjectAllStep(reg: Registry, cs: seq<Candidate>, cs': seq<Candidate>, i: nat)
    requires AllFit(cs) && i < |cs| && IsInjectable(cs[i].desc) && Injected(reg, cs[i]).failure.None?
    requires cs' == cs[i := Candidate(cs[i].desc, Injected(reg, cs[i]).members)] && AllFit(cs')
    requires FirstFailingCandidate(reg, cs, i + 1) == FirstFailingCandidate(reg, cs', i + 1)
    requires SceneOutcomeAt(reg, cs', i + 1, FirstFailingCandidate(reg, cs', i + 1), InjectAll(reg, cs', i + 1))
    ensures SceneOutcomeAt(reg, cs, i, FirstFailingCandidate(reg, cs, i), InjectAll(reg, cs, i))
  {
    var f := FirstFailingCandidate(reg, cs, i);
    assert f == FirstFailingCandidate(reg, cs', i + 1);
    var o := InjectAll(reg, cs, i);
    assert o == InjectAll(reg, cs', i + 1);
    forall j | 0 <= j < |cs| && (j < i || f < j || !IsInjectable(cs[j].desc))
      ensures o.candidates[j] == cs[j]
    {
      if j != i {
        assert cs'[j] == cs[j];
      }
    }
    forall j | i <= j < |cs| && j <= f && IsInjectable(cs[j].desc)
      ensures o.candidates[j] == Candidate(cs[j].desc, Injected(reg, cs[j]).members)
    {
      if j > i {
        assert cs'[j] == cs[j];
      }
    }
    if f < |cs| {
      assert cs'[f] == cs[f];
    }
  }

  /** The scene loop at its end, and passing over a component that is not injectable. */
  lemma InjectAllPass(reg: Registry, cs: seq<Candidate>, i: nat)
    requires AllFit(cs) && i <= |cs|
    ensures i == |cs| ==> InjectAll(reg, cs, i) == SceneOutcome(cs, None)
    ensures i < |cs| && !IsInjectable(cs[i].desc) ==> InjectAll(reg, cs, i) == InjectAll(reg, cs, i + 1)
  {
  }

  lemma {:induction false} InjectAllSkip(reg: Registry, cs: seq<Candidate>, i: nat)
    requires AllFit(cs) && i < |cs| && !IsInjectable(cs[i].desc)
    requires SceneOutcomeAt(reg, cs, i + 1, FirstFailingCandidate(reg, cs, i + 1), InjectAll(reg, cs, i + 1))
    ensures SceneOutcomeAt(reg, cs, i, FirstFailingCandidate(reg, cs, i), InjectAll(reg, cs, i))
  {
    var o, f := InjectAll(reg, cs, i + 1), FirstFailingCandidate(reg, cs, i + 1);
    assert InjectAll(reg, cs, i) == o;
    assert FirstFailingCandidate(reg, cs, i) == f;
    forall j | 0 <= j < |cs| && (j < i || f < j || !IsInjectable(cs[j].desc))
      ensures o.candidates[j] == cs[j]
    {
    }
    forall j | i <= j < |cs| && j <= f && IsInjectable(cs[j].desc)
      ensures o.candidates[j] == Candidate(cs[j].desc, Injected(reg, cs[j]).members)
    {
    }
  }

  lemma {:induction false} InjectAllStop(reg: Registry, cs: seq<Candidate>, i: nat)
    requires AllFit(cs) && i < |cs| && IsInjectable(cs[i].desc) && Injected(reg, cs[i]).failure.Some?
    ensures SceneOutcomeAt(reg, cs, i, FirstFailingCandidate(reg, cs, i), InjectAll(reg, cs, i))
  {
    assert FirstFailingCandidate(reg, cs, i) == i;
    var r := Injected(reg, cs[i]);
    assert InjectAll(reg, cs, i) == SceneOutcome(cs[i := Candidate(cs[i].desc, r.members)], r.failure);
  }

  /**
   * One round of the scene loop on an injectable component, given the scene
   * after it: the component has Inject's outcome and no other changed.
   */
  lemma {:induction false} InjectAllOneStep(reg: Registry, before: seq<Candidate>, after: seq<Candidate>, i: nat, failure: Option<Failure>)
    requires AllFit(before) && AllFit(after) && i < |before| == |after| && IsInjectable(before[i].desc)
    requires forall j :: 0 <= j < |before| && j != i ==> after[j] == before[j]
    requires after[i].desc == before[i].desc
    requires InjectOutcome(after[i].members, failure) == Injected(reg, before[i])
    ensures failure.Some? ==> InjectAll(reg, before, i) == SceneOutcome(after, failure)
    ensures failure.None? ==> InjectAll(reg, before, i) == InjectAll(reg, after, i + 1)
  {
    assert after == before[i := Candidate(before[i].desc, Injected(reg, before[i]).members)];
  }
}
