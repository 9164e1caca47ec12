/**
 * ValidateDependencies: an advisory pass that reports, without invoking any
 * provider and without changing anything, the null [Inject] fields whose type
 * no [Provide] method declares as its return type.
 */
module Validation {
  import opened Descriptors
  import opened Registration
  import opened Injection
  import opened Bootstrapping

  /** Field `field` of the scene's component `owner` is missing a dependency of type `fieldType`. */
  datatype Missing = Missing(owner: nat, field: nat, fieldType: TypeKey)

  /** The report: the "all valid" message, or the list of invalid dependencies in scene and field order. */
  datatype Report = AllValid | Invalid(missing: seq<Missing>)

  /** `a` comes before `b` in scene order, then field order. */
  predicate Before(a: Missing, b: Missing) {
    a.owner < b.owner || (a.owner == b.owner && a.field < b.field)
  }

  /** Strictly ascending in scene and field order, so no field is listed twice. */
  ghost predicate Sorted(ms: seq<Missing>) {
    forall t, t' :: 0 <= t < t' < |ms| ==> Before(ms[t], ms[t'])
  }

  lemma SortedAppend(a: seq<Missing>, b: seq<Missing>)
    requires Sorted(a) && Sorted(b)
    requires forall m, m' :: m in a && m' in b ==> Before(m, m')
    ensures Sorted(a + b)
  {
    var ab := a + b;
    forall t, t' | 0 <= t < t' < |ab|
      ensures Before(ab[t], ab[t'])
    {
      if t' < |a| {
        assert ab[t] == a[t] && ab[t'] == a[t'];
      } else if t < |a| {
        assert ab[t] == a[t] && ab[t'] == b[t' - |a|];
      } else {
        assert ab[t] == b[t - |a|] && ab[t'] == b[t' - |a|];
      }
    }
  }

  lemma EmptyIffNoEntry(ms: seq<Missing>)
    ensures ms == [] <==> forall m :: m !in ms
  {
    if ms != [] {
      assert ms[0] in ms;
    }
  }

  /**
   * Two sorted lists with the same entries are equal: the flags of a scene
   * determine the list, and so its length, completely.
   */
  lemma {:induction false} SortedUnique(a: seq<Missing>, b: seq<Missing>)
    requires Sorted(a) && Sorted(b)
    requires forall m :: m in a <==> m in b
    ensures a == b
    decreases |a|
  {
    if a == [] {
      EmptyIffNoEntry(b);
    } else {
      assert a[0] in b;
      var t :| 0 <= t < |b| && b[t] == a[0];
      assert b[0] in a;
      var u :| 0 <= u < |a| && a[u] == b[0];
      assert t == 0 || Before(b[0], b[t]);
      assert u == 0 || Before(a[0], a[u]);
      assert a[0] == b[0];
      forall m
        ensures m in a[1..] <==> m in b[1..]
      {
        if m in a[1..] {
          var t :| 1 <= t < |a| && a[t] == m;
          assert Before(a[0], a[t]);
          assert m in b && m != b[0];
          var u :| 0 <= u < |b| && b[u] == m;
          assert b[1..][u - 1] == m;
        }
        if m in b[1..] {
          var u :| 1 <= u < |b| && b[u] == m;
          assert Before(b[0], b[u]);
          assert m in a && m != a[0];
          var t :| 0 <= t < |a| && a[t] == m;
          assert a[1..][t - 1] == m;
        }
      }
      SortedUnique(a[1..], b[1..]);
      assert a == [a[0]] + a[1..] && b == [b[0]] + b[1..];
    }
  }

  /** An [Inject] field whose type is not provided and whose value is null. */
  predicate Flagged(c: Candidate, j: nat, provided: set<TypeKey>)
    requires Fits(c) && j < |c.desc.fields|
  {
    c.desc.fields[j].inject && c.desc.fields[j].fieldType !in provided && c.members.fields[j].None?
  }

  /** Describes a flag raised on field `j` of component `owner` of the scene. */
  ghost predicate IsFlag(cs: seq<Candidate>, provided: set<TypeKey>, m: Missing)
    requires AllFit(cs)
  {
    && m.owner < |cs| && m.field < |cs[m.owner].desc.fields|
    && Flagged(cs[m.owner], m.field, provided)
    && m.fieldType == cs[m.owner].desc.fields[m.field].fieldType
  }

  /** No field of the scene is flagged. */
  ghost predicate Clean(cs: seq<Candidate>, provided: set<TypeKey>)
    requires AllFit(cs)
  {
    forall o, j :: 0 <= o < |cs| && 0 <= j < |cs[o].desc.fields| ==> !Flagged(cs[o], j, provided)
  }

  /** The flags on the fields of one component, from field `j` on. */
  function FieldFlags(c: Candidate, owner: nat, provided: set<TypeKey>, j: nat): (ms: seq<Missing>)
    requires Fits(c) && j <= |c.desc.fields|
    ensures forall m :: m in ms ==>
      m.owner == owner && j <= m.field < |c.desc.fields| && Flagged(c, m.field, provided)
      && m.fieldType == c.desc.fields[m.field].fieldType
    ensures forall k :: j <= k < |c.desc.fields| && Flagged(c, k, provided) ==>
      Missing(owner, k, c.desc.fields[k].fieldType) in ms
    ensures Sorted(ms)
    decreases |c.desc.fields| - j
  {
    if j == |c.desc.fields| then []
    else
      var rest := FieldFlags(c, owner, provided, j + 1);
      if Flagged(c, j, provided) then
        var first := [Missing(owner, j, c.desc.fields[j].fieldType)];
        SortedAppend(first, rest);
        first + rest
      else rest
  }

  /** The query of ValidateDependencies from component `i` on: every flag, component by component. */
  function MissingDependencies(cs: seq<Candidate>, provided: set<TypeKey>, i: nat): (ms: seq<Missing>)
    requires AllFit(cs) && i <= |cs|
    ensures forall m :: m in ms ==> i <= m.owner && IsFlag(cs, provided, m)
    ensures forall m: Missing :: i <= m.owner && IsFlag(cs, provided, m) ==> m in ms
    ensures Sorted(ms)
    decreases |cs| - i
  {
    if i == |cs| then []
    else
      var own, rest := FieldFlags(cs[i], i, provided, 0), MissingDependencies(cs, provided, i + 1);
      SortedAppend(own, rest);
      own + rest
  }

  /** ValidateDependencies: the provided set comes from the providers' [Provide] return types only. */
  function Validate(cs: seq<Candidate>): (r: Report)
    requires AllFit(cs)
    ensures r.AllValid? <==> Clean(cs, ProvidedTypes(ProviderMethods(cs)))
    ensures r.Invalid? ==> forall m :: m in r.missing <==> IsFlag(cs, ProvidedTypes(ProviderMethods(cs)), m)
    ensures r.Invalid? ==> Sorted(r.missing)
  {
    var provided := ProvidedTypes(ProviderMethods(cs));
    var ms := MissingDependencies(cs, provided, 0);
    if ms == [] then
      assert Clean(cs, provided) by {
        forall o, j | 0 <= o < |cs| && 0 <= j < |cs[o].desc.fields|
          ensures !Flagged(cs[o], j, provided)
        {
          assert Missing(o, j, cs[o].desc.fields[j].fieldType) !in ms;
        }
      }
      AllValid
    else
      assert IsFlag(cs, provided, ms[0]);
      var o, j := ms[0].owner, ms[0].field;
      assert 0 <= o < |cs| && 0 <= j < |cs[o].desc.fields| && Flagged(cs[o], j, provided);
      assert !Clean(cs, provided);
      Invalid(ms)
  }

  /**
   * The list Validate reports is the only one that lists every flagged field
   * once, in scene and field order: any such list is the report.
   */
  lemma ValidateListIsDetermined(cs: seq<Candidate>, ms: seq<Missing>)
    requires AllFit(cs) && ms != [] && Sorted(ms)
    requires forall m :: m in ms <==> IsFlag(cs, ProvidedTypes(ProviderMethods(cs)), m)
    ensures Validate(cs) == Invalid(ms)
  {
    var r := Validate(cs);
    assert IsFlag(cs, ProvidedTypes(ProviderMethods(cs)), ms[0]);
    var m := ms[0];
    assert 0 <= m.owner < |cs| && 0 <= m.field < |cs[m.owner].desc.fields| && Flagged(cs[m.owner], m.field, ProvidedTypes(ProviderMethods(cs)));
    assert r.Invalid?;
    SortedUnique(r.missing, ms);
  }

  /**
   * Validation never flags a scene on which Awake, started from an empty
   * registry, succeeds: every null [Inject] field it meets has a provided type.
   */
  lemma {:induction false} BootableSceneIsValid(cs: seq<Candidate>)
    requires AllFit(cs) && Bootstrap(map[], cs).failure.None?
    ensures Validate(cs) == AllValid
  {
    var ms := ProviderMethods(cs);
    var o := Bootstrap(map[], cs);
    BootstrapSuccess(map[], cs);
    assert o.registry.Keys == ProvidedTypes(ms);
    forall c, j | 0 <= c < |cs| && 0 <= j < |cs[c].desc.fields|
      ensures !Flagged(cs[c], j, ProvidedTypes(ms))
    {
      if cs[c].desc.fields[j].inject {
        assert IsInjectable(cs[c].desc);
        InjectSucceedsIff(o.registry, cs[c]);
        assert !MissingField(o.registry, cs[c].desc.fields[j], cs[c].members.fields[j]);
      }
    }
  }

  /** After a successful Awake, validation reports every dependency valid. */
  lemma {:induction false} ValidAfterBootstrap(reg: Registry, cs: seq<Candidate>)
    requires AllFit(cs) && Bootstrap(reg, cs).failure.None?
    ensures Validate(Bootstrap(reg, cs).candidates) == AllValid
  {
    var o := Bootstrap(reg, cs);
    BootstrapSuccess(reg, cs);
    forall c, j | 0 <= c < |cs| && 0 <= j < |cs[c].desc.fields|
      ensures !Flagged(o.candidates[c], j, ProvidedTypes(ProviderMethods(o.candidates)))
    {
      if cs[c].desc.fields[j].inject {
        assert IsInjectable(cs[c].desc);
        InjectedFieldsSet(o.registry, cs[c], j);
      }
    }
  }

  /** After a successful Inject, every [Inject] field holds a value. */
  lemma InjectedFieldsSet(reg: Registry, c: Candidate, j: nat)
    requires Fits(c) && Injected(reg, c).failure.None? && j < |c.desc.fields| && c.desc.fields[j].inject
    ensures Injected(reg, c).members.fields[j].Some?
  {
    FieldsFromSpec(reg, c.desc.fields, c.members.fields, 0);
  }
}
