/**
 * The registry and the registration phase: `Resolve`, `Register` (as the fold
 * RegisterOps over one provider's methods) and the registration loop of
 * `Awake` (RegisterAll over the scene).
 */
module Registration {
  import opened Descriptors

  /** Resolve: the instance registered for `k`, or Unresolved(k). */
  function Resolve(reg: Registry, k: TypeKey): (r: Result<Obj>)
    ensures r.Ok? <==> k in reg
    ensures r.Ok? ==> r.value == reg[k]
    ensures r.Err? ==> r.error == Unresolved(k)
  {
    if k in reg then Ok(reg[k]) else Err(Unresolved(k))
  }

  predicate AllRegistered(reg: Registry, ks: seq<TypeKey>) {
    forall u :: 0 <= u < |ks| ==> ks[u] in reg
  }

  /**
   * The parameter resolution of an [Inject] method: `Resolve` applied to each
   * parameter type in order, stopping at the first one that is not registered.
   */
  function ResolveAll(reg: Registry, ks: seq<TypeKey>): (r: Result<seq<Obj>>)
    ensures r.Ok? <==> AllRegistered(reg, ks)
    ensures r.Ok? ==> |r.value| == |ks| && forall u :: 0 <= u < |ks| ==> r.value[u] == reg[ks[u]]
    ensures r.Err? ==>
      exists u :: 0 <= u < |ks| && ks[u] !in reg && r.error == Unresolved(ks[u])
                  && forall v :: 0 <= v < u ==> ks[v] in reg
  {
    if ks == [] then Ok([])
    else
      match Resolve(reg, ks[0])
      case Err(e) => Err(e)
      case Ok(x) =>
        match ResolveAll(reg, ks[1..])
        case Err(e) =>
          assert forall u :: 0 <= u < |ks| - 1 ==> ks[1..][u] == ks[u + 1];
          Err(e)
        case Ok(xs) => Ok([x] + xs)
  }

  datatype RegisterOutcome = RegisterOutcome(registry: Registry, failure: Option<Failure>)

  /**
   * Register on one provider: every [Provide] method is invoked in order; a
   * null result fails, a return type already present fails as Dictionary.Add
   * does, otherwise the result is added under the return type.
   */
  function RegisterOps(reg: Registry, ms: seq<MethodInfo>): (o: RegisterOutcome)
    ensures reg.Keys <= o.registry.Keys
    ensures o.failure.Some? ==> !o.failure.value.Unresolved?
    decreases |ms|
  {
    if ms == [] then RegisterOutcome(reg, None)
    else if !ms[0].provide then RegisterOps(reg, ms[1..])
    else
      match ms[0].result
      case None => RegisterOutcome(reg, Some(NullProvision(ms[0].returnType)))
      case Some(x) =>
        if ms[0].returnType in reg then RegisterOutcome(reg, Some(DuplicateKey(ms[0].returnType)))
        else RegisterOps(reg[ms[0].returnType := x], ms[1..])
  }

  /** The return types of the [Provide] methods among `ms`. */
  function ProvidedTypes(ms: seq<MethodInfo>): (ks: set<TypeKey>)
    ensures forall k :: k in ks <==> exists j :: 0 <= j < |ms| && ms[j].provide && ms[j].returnType == k
    decreases |ms|
  {
    if ms == [] then {}
    else
      var rest := ProvidedTypes(ms[1..]);
      assert forall j :: 0 <= j < |ms| - 1 ==> ms[1..][j] == ms[j + 1];
      (if ms[0].provide then {ms[0].returnType} else {}) + rest
  }

  /**
   * Registration can go through: every [Provide] method yields an instance,
   * and no two of them, nor any earlier entry, share a return type.
   */
  ghost predicate Registrable(reg: Registry, ms: seq<MethodInfo>) {
    && (forall j :: 0 <= j < |ms| && ms[j].provide ==> ms[j].result.Some? && ms[j].returnType !in reg)
    && (forall j, j' :: 0 <= j < j' < |ms| && ms[j].provide && ms[j'].provide ==> ms[j].returnType != ms[j'].returnType)
  }

  /** Registering never removes or replaces an entry, and each new entry is what a [Provide] method returned. */
  lemma {:induction false} RegisterKeepsEntries(reg: Registry, ms: seq<MethodInfo>)
    ensures var o := RegisterOps(reg, ms);
      && (forall k :: k in reg ==> k in o.registry && o.registry[k] == reg[k])
      && (forall k :: k in o.registry && k !in reg ==>
            exists j :: 0 <= j < |ms| && ms[j].provide && ms[j].returnType == k && ms[j].result == Some(o.registry[k]))
    decreases |ms|
  {
    if ms != [] && ms[0].provide && ms[0].result.Some? && ms[0].returnType !in reg {
      var reg' := reg[ms[0].returnType := ms[0].result.value];
      RegisterKeepsEntries(reg', ms[1..]);
      var o := RegisterOps(reg, ms);
      assert o == RegisterOps(reg', ms[1..]);
      forall k | k in o.registry && k !in reg
        ensures exists j :: 0 <= j < |ms| && ms[j].provide && ms[j].returnType == k && ms[j].result == Some(o.registry[k])
      {
        if k == ms[0].returnType {
          assert ms[0].result == Some(o.registry[k]);
        } else {
          var j :| 0 <= j < |ms[1..]| && ms[1..][j].provide && ms[1..][j].returnType == k && ms[1..][j].result == Some(o.registry[k]);
          assert ms[j + 1] == ms[1..][j];
        }
      }
    } else if ms != [] && !ms[0].provide {
      RegisterKeepsEntries(reg, ms[1..]);
      var o := RegisterOps(reg, ms);
      forall k | k in o.registry && k !in reg
        ensures exists j :: 0 <= j < |ms| && ms[j].provide && ms[j].returnType == k && ms[j].result == Some(o.registry[k])
      {
        var j :| 0 <= j < |ms[1..]| && ms[1..][j].provide && ms[1..][j].returnType == k && ms[1..][j].result == Some(o.registry[k]);
        assert ms[j + 1] == ms[1..][j];
      }
    }
  }

  /** Register succeeds exactly when no provided value is null and no return type repeats or is already registered. */
  lemma {:induction false} RegisterSucceedsIff(reg: Registry, ms: seq<MethodInfo>)
    ensures RegisterOps(reg, ms).failure.None? <==> Registrable(reg, ms)
    decreases |ms|
  {
    if ms == [] {
    } else if !ms[0].provide {
      RegisterSucceedsIff(reg, ms[1..]);
      assert forall j :: 0 <= j < |ms| - 1 ==> ms[1..][j] == ms[j + 1];
    } else if ms[0].result.Some? && ms[0].returnType !in reg {
      var reg' := reg[ms[0].returnType := ms[0].result.value];
      RegisterSucceedsIff(reg', ms[1..]);
      assert forall j :: 0 <= j < |ms| - 1 ==> ms[1..][j] == ms[j + 1];
      if Registrable(reg', ms[1..]) {
        forall j, j' | 0 <= j < j' < |ms| && ms[j].provide && ms[j'].provide
          ensures ms[j].returnType != ms[j'].returnType
        {
          if j == 0 {
            assert ms[1..][j' - 1] == ms[j'];
          } else {
            assert ms[1..][j - 1] == ms[j] && ms[1..][j' - 1] == ms[j'];
          }
        }
      }
      if Registrable(reg, ms) {
        forall j | 0 <= j < |ms[1..]| && ms[1..][j].provide
          ensures ms[1..][j].returnType !in reg'
        {
          assert ms[1..][j] == ms[j + 1];
        }
      }
    }
  }

  /** After a successful Register, every [Provide] return type resolves to exactly the instance its method returned. */
  lemma {:induction false} RegisterSuccess(reg: Registry, ms: seq<MethodInfo>)
    requires RegisterOps(reg, ms).failure.None?
    ensures var o := RegisterOps(reg, ms);
      && o.registry.Keys == reg.Keys + ProvidedTypes(ms)
      && forall j :: 0 <= j < |ms| && ms[j].provide ==>
           ms[j].result.Some? && ms[j].returnType in o.registry && o.registry[ms[j].returnType] == ms[j].result.value
    decreases |ms|
  {
    if ms == [] {
    } else if !ms[0].provide {
      RegisterSuccess(reg, ms[1..]);
      assert forall j :: 0 <= j < |ms| - 1 ==> ms[1..][j] == ms[j + 1];
    } else {
      var reg' := reg[ms[0].returnType := ms[0].result.value];
      RegisterSuccess(reg', ms[1..]);
      RegisterKeepsEntries(reg', ms[1..]);
      assert forall j :: 0 <= j < |ms| - 1 ==> ms[1..][j] == ms[j + 1];
    }
  }

  /** A failing Register names a [Provide] method that returned null, or one whose return type was already taken. */
  lemma {:induction false} RegisterFailure(reg: Registry, ms: seq<MethodInfo>)
    requires RegisterOps(reg, ms).failure.Some?
    ensures var e := RegisterOps(reg, ms).failure.value;
      exists j :: 0 <= j < |ms| && ms[j].provide &&
        ((ms[j].result.None? && e == NullProvision(ms[j].returnType)) ||
         (ms[j].result.Some? && e == DuplicateKey(ms[j].returnType) &&
          (ms[j].returnType in reg || exists j' :: 0 <= j' < j && ms[j'].provide && ms[j'].returnType == ms[j].returnType)))
    decreases |ms|
  {
    var e := RegisterOps(reg, ms).failure.value;
    if !ms[0].provide {
      RegisterFailure(reg, ms[1..]);
      var j :| 0 <= j < |ms[1..]| && ms[1..][j].provide &&
        ((ms[1..][j].result.None? && e == NullProvision(ms[1..][j].returnType)) ||
         (ms[1..][j].result.Some? && e == DuplicateKey(ms[1..][j].returnType) &&
          (ms[1..][j].returnType in reg || exists j' :: 0 <= j' < j && ms[1..][j'].provide && ms[1..][j'].returnType == ms[1..][j].returnType)));
      assert ms[j + 1] == ms[1..][j];
      if ms[j + 1].result.Some? && ms[j + 1].returnType !in reg {
        var j' :| 0 <= j' < j && ms[1..][j'].provide && ms[1..][j'].returnType == ms[1..][j].returnType;
        assert ms[j' + 1] == ms[1..][j'];
      }
    } else if ms[0].result.Some? && ms[0].returnType !in reg {
      var k := ms[0].returnType;
      var reg' := reg[k := ms[0].result.value];
      RegisterFailure(reg', ms[1..]);
      var j :| 0 <= j < |ms[1..]| && ms[1..][j].provide &&
        ((ms[1..][j].result.None? && e == NullProvision(ms[1..][j].returnType)) ||
         (ms[1..][j].result.Some? && e == DuplicateKey(ms[1..][j].returnType) &&
          (ms[1..][j].returnType in reg' || exists j' :: 0 <= j' < j && ms[1..][j'].provide && ms[1..][j'].returnType == ms[1..][j].returnType)));
      assert ms[j + 1] == ms[1..][j];
      if ms[j + 1].result.Some? && ms[j + 1].returnType !in reg && ms[j + 1].returnType != k {
        var j' :| 0 <= j' < j && ms[1..][j'].provide && ms[1..][j'].returnType == ms[1..][j].returnType;
        assert ms[j' + 1] == ms[1..][j'];
      }
    }
  }

  /** Registering `a + b` is registering `a`, then, unless that failed, `b` into the result. */
  lemma {:induction false} RegisterOpsAppend(reg: Registry, a: seq<MethodInfo>, b: seq<MethodInfo>)
    ensures RegisterOps(reg, a + b) ==
      var o := RegisterOps(reg, a);
      if o.failure.Some? then o else RegisterOps(o.registry, b)
    decreases |a|
  {
    if a == [] {
      assert a + b == b;
    } else {
      assert (a + b)[0] == a[0] && (a + b)[1..] == a[1..] + b;
      if !a[0].provide {
        RegisterOpsAppend(reg, a[1..], b);
      } else if a[0].result.Some? && a[0].returnType !in reg {
        RegisterOpsAppend(reg[a[0].returnType := a[0].result.value], a[1..], b);
      }
    }
  }

  /** The methods of the scene's providers, in scene order then reflection order. */
  function ProviderMethods(cs: seq<Candidate>): seq<MethodInfo>
    decreases |cs|
  {
    if cs == [] then []
    else (if cs[0].desc.isProvider then cs[0].desc.methods else []) + ProviderMethods(cs[1..])
  }

  /** The registration loop of Awake: Register on every provider of the scene, in order, stopping at the first failure. */
  function RegisterAll(reg: Registry, cs: seq<Candidate>): (o: RegisterOutcome)
    ensures reg.Keys <= o.registry.Keys
    ensures o.failure.Some? ==> !o.failure.value.Unresolved?
    decreases |cs|
  {
    if cs == [] then RegisterOutcome(reg, None)
    else if !cs[0].desc.isProvider then RegisterAll(reg, cs[1..])
    else
      var o := RegisterOps(reg, cs[0].desc.methods);
      if o.failure.Some? then o else RegisterAll(o.registry, cs[1..])
  }

  /** Registering provider after provider is registering all their methods as one sequence. */
  lemma {:induction false} RegisterAllFlattens(reg: Registry, cs: seq<Candidate>)
    ensures RegisterAll(reg, cs) == RegisterOps(reg, ProviderMethods(cs))
    decreases |cs|
  {
    if cs != [] {
      var own := if cs[0].desc.isProvider then cs[0].desc.methods else [];
      RegisterOpsAppend(reg, own, ProviderMethods(cs[1..]));
      if cs[0].desc.isProvider {
        var o := RegisterOps(reg, own);
        if o.failure.None? {
          RegisterAllFlattens(o.registry, cs[1..]);
        }
      } else {
        RegisterAllFlattens(reg, cs[1..]);
      }
    }
  }

  /** The provided types of two method lists in a row are the union of theirs. */
  lemma ProvidedTypesAppend(a: seq<MethodInfo>, b: seq<MethodInfo>)
    ensures ProvidedTypes(a + b) == ProvidedTypes(a) + ProvidedTypes(b)
  {
    forall k | k in ProvidedTypes(a + b)
      ensures k in ProvidedTypes(a) + ProvidedTypes(b)
    {
      var j :| 0 <= j < |a + b| && (a + b)[j].provide && (a + b)[j].returnType == k;
      if j >= |a| {
        assert b[j - |a|] == (a + b)[j];
      }
    }
    forall k | k in ProvidedTypes(a)
      ensures k in ProvidedTypes(a + b)
    {
      var j :| 0 <= j < |a| && a[j].provide && a[j].returnType == k;
      assert (a + b)[j] == a[j];
    }
    forall k | k in ProvidedTypes(b)
      ensures k in ProvidedTypes(a + b)
    {
      var j :| 0 <= j < |b| && b[j].provide && b[j].returnType == k;
      assert (a + b)[|a| + j] == b[j];
    }
  }

  /** ProviderMethods grows at the end as the scene does. */
  lemma {:induction false} ProviderMethodsSnoc(cs: seq<Candidate>, i: nat)
    requires i < |cs|
    ensures ProviderMethods(cs[..i + 1]) ==
      ProviderMethods(cs[..i]) + (if cs[i].desc.isProvider then cs[i].desc.methods else [])
    decreases i
  {
    if i > 0 {
      ProviderMethodsSnoc(cs[1..], i - 1);
      assert cs[1..][..i] == cs[..i + 1][1..];
      assert cs[1..][..i - 1] == cs[..i][1..];
    }
  }

  /** The provided types of a method list grow at the end as the list does. */
  lemma ProvidedTypesSnoc(ms: seq<MethodInfo>, k: nat)
    requires k < |ms|
    ensures ProvidedTypes(ms[..k + 1]) == ProvidedTypes(ms[..k]) + (if ms[k].provide then {ms[k].returnType} else {})
  {
    assert ms[..k + 1] == ms[..k] + [ms[k]];
    ProvidedTypesAppend(ms[..k], [ms[k]]);
  }

  /** One more method of a list, added to the types collected so far. */
  lemma ProvidedTypesSnocUnion(start: set<TypeKey>, ms: seq<MethodInfo>, k: nat)
    requires k < |ms|
    ensures start + ProvidedTypes(ms[..k + 1]) ==
      (start + ProvidedTypes(ms[..k])) + (if ms[k].provide then {ms[k].returnType} else {})
  {
    ProvidedTypesSnoc(ms, k);
    var a, b := ProvidedTypes(ms[..k]), if ms[k].provide then {ms[k].returnType} else {};
    assert start + (a + b) == (start + a) + b;
  }

  /** The types the first i + 1 components provide: those of the first i and those of component i. */
  lemma ProvidedAt(cs: seq<Candidate>, i: nat)
    requires i < |cs|
    ensures ProvidedTypes(ProviderMethods(cs[..i + 1])) ==
      ProvidedTypes(ProviderMethods(cs[..i])) + ProvidedTypes(if cs[i].desc.isProvider then cs[i].desc.methods else [])
  {
    ProviderMethodsSnoc(cs, i);
    ProvidedTypesAppend(ProviderMethods(cs[..i]), if cs[i].desc.isProvider then cs[i].desc.methods else []);
  }

  /** One round of the registration loop, at component `i` of the scene. */
  lemma RegisterAllAt(reg: Registry, cs: seq<Candidate>, i: nat)
    requires i < |cs|
    ensures !cs[i].desc.isProvider ==> RegisterAll(reg, cs[i..]) == RegisterAll(reg, cs[i + 1..])
    ensures cs[i].desc.isProvider ==>
      RegisterAll(reg, cs[i..]) ==
        (var o := RegisterOps(reg, cs[i].desc.methods);
         if o.failure.Some? then o else RegisterAll(o.registry, cs[i + 1..]))
  {
    assert cs[i..][0] == cs[i] && cs[i..][1..] == cs[i + 1..];
  }
}
