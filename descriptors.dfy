/**
 * The values the injector works on. Reflection over a component's type is
 * replaced by an explicit descriptor: the fields, properties and methods the
 * type declares, which of them carry the [Inject] or [Provide] marker, and what
 * each zero-argument method returns when invoked on that component.
 */
module Descriptors {

  /** A runtime type, compared by identity: two keys are the same type iff equal. */
  datatype TypeKey = TypeKey(id: nat)

  /** A non-null object reference; a null reference is `None`. */
  datatype Obj = Obj(id: nat)

  datatype Option<T> = None | Some(value: T)

  /** The exceptions that abort a bootstrap. */
  datatype Failure =
    | NullProvision(returnType: TypeKey)  // a [Provide] method returned null
    | DuplicateKey(key: TypeKey)          // Dictionary.Add on a type already registered
    | Unresolved(key: TypeKey)            // Resolve on a type that is not registered

  datatype Result<T> = Ok(value: T) | Err(error: Failure)

  /** The injector's `_registry`: at most one instance per type, never null. */
  type Registry = map<TypeKey, Obj>

  datatype FieldInfo = FieldInfo(inject: bool, fieldType: TypeKey)

  datatype PropertyInfo = PropertyInfo(inject: bool, propertyType: TypeKey)

  /** `result` is what invoking the method on its component with no arguments returns. */
  datatype MethodInfo = MethodInfo(
    inject: bool,
    provide: bool,
    returnType: TypeKey,
    parameters: seq<TypeKey>,
    result: Option<Obj>)

  /**
   * One component: whether its type implements IDependencyProvider, and its type's
   * members in reflection order. The methods' results are those of invoking them on
   * this component, so two components of one type may have different descriptors.
   */
  datatype Descriptor = Descriptor(
    isProvider: bool,
    fields: seq<FieldInfo>,
    properties: seq<PropertyInfo>,
    methods: seq<MethodInfo>)

  /** One invocation of the method at index `methodIndex`, with its arguments. */
  datatype Call = Call(methodIndex: nat, args: seq<Obj>)

  /** The state injection writes: field values, property values and the invocations made so far. */
  datatype Members = Members(fields: seq<Option<Obj>>, properties: seq<Option<Obj>>, calls: seq<Call>)

  datatype Candidate = Candidate(desc: Descriptor, members: Members)

  /** The member values line up with the members the descriptor declares. */
  predicate Fits(c: Candidate) {
    |c.members.fields| == |c.desc.fields| && |c.members.properties| == |c.desc.properties|
  }

  predicate AllFit(cs: seq<Candidate>) {
    forall i :: 0 <= i < |cs| ==> Fits(cs[i])
  }

  /** IsInjectable: some field, property or method carries [Inject]. */
  predicate IsInjectable(d: Descriptor) {
    || (exists j :: 0 <= j < |d.fields| && d.fields[j].inject)
    || (exists j :: 0 <= j < |d.properties| && d.properties[j].inject)
    || (exists j :: 0 <= j < |d.methods| && d.methods[j].inject)
  }
}
