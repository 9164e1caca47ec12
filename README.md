# Unity Dependency Injection, modelled in Dafny

This project models the injector of Hezaerd/Unity-Dependency-Injection and the demo `HealthService`.

The `Injector` MonoBehaviour runs once, in `Awake`, over the scene's MonoBehaviours:

- **Registration.** Every component implementing `IDependencyProvider` is registered. Each of its `[Provide]` methods is invoked once. The result is added to the `_registry` dictionary under the method's return type.
- **Injection.** Every component with at least one `[Inject]` member is then injected:
  - null `[Inject]` fields receive the registry's instance;
  - `[Inject]` properties are overwritten;
  - `[Inject]` methods are invoked with their parameters resolved.
- **Validation.** `ValidateDependencies` is an advisory pass. It lists the null `[Inject]` fields whose type no `[Provide]` method returns.

Reflection is replaced by an explicit `Descriptor` per component. It lists the fields, properties and methods of the component's type in reflection order and says which carry `[Inject]` or `[Provide]`. It also gives what each method returns when invoked on that component, so two components of one type (two `GameProvider`s, say) have descriptors that differ in the instances their `[Provide]` methods create. A type is a `TypeKey` compared by identity. An object reference is an `Obj`, and null is `None`.

Modules:

- `Descriptors` (descriptors.dfy): the value types, the failure kinds and `IsInjectable`.
- `Registration` (registration.dfy): `Resolve`, the `Register` loop (`RegisterOps`), the registration phase of `Awake` (`RegisterAll`) and the provided-type set.
- `Injection` (injection.dfy): the field, property and method loops of `Inject`, `Inject` on one component (`Injected`), and the injection phase of `Awake` (`InjectAll`). Each recursive definition has a closed-form lemma.
- `Bootstrapping` (bootstrap.dfy): `Awake` as a function (`Bootstrap`) and its closed form.
- `DemoScene` (demo.dfy): the demo scene of `GameProvider`, `Player` and `Enemy`.
- `Validation` (validation.dfy): the query of `ValidateDependencies`.
- `DependencyInjection` (injector.dfy): the classes.
  - `Component` is a MonoBehaviour whose fields, properties and invocation record are updated in place.
  - `Injector` holds `registry`. Its methods `Register`, `Inject`, `Awake` and `GetProvidedDependencies` are loops proved against the functions above. `ValidateDependencies` calls `GetProvidedDependencies` and then evaluates the query `MissingDependencies`, and is proved to return `Validate` of the scene. The three loops of `Inject` are the methods `InjectFields`, `InjectProperties` and `InjectMethods`. The two loops of `Awake` are `RegisterProviders` and `InjectInjectables`, and one round of the second is `InjectAt`. The inner loop of `GetProvidedDependencies` is `AddProvided`.
- `Health` (health.dfy): the class `HealthService`, with C#'s unchecked 32-bit `int` arithmetic written out.

Every exception the injector's own code throws is a `Failure` value:

- `NullProvision`: a `[Provide]` method returned null.
- `DuplicateKey`: `Dictionary.Add` was called on a type already registered.
- `Unresolved`: `Resolve` was called on a missing type.

The null checks after `Resolve` (Injector.cs lines 66, 81 and 98) can never fire. `Resolve` already throws on a missing key, and the registry never holds null. So the model has a single `Unresolved` outcome. A failure stops `Awake`, and the writes made before it stay in place.

Two behaviours of the code differ from what a reader of the attributes might expect, and the model follows the code:

- An `[Inject]` property is always overwritten, even when it already holds a value. Only fields have the already-set check.
- An `[Inject]` method fails on its first parameter type that is not registered (`Select(Resolve).ToArray()` throws there). It does not collect every unresolved parameter.

## Model

| member | source | states |
|---|---|---|
| Registration.Resolve | Assets/Scripts/DependencyInjection/Injector.cs:179-185 | Resolve succeeds iff the type is registered. It then returns exactly the stored instance; otherwise it fails with Unresolved on that type. |
| Registration.ResolveAll | Assets/Scripts/DependencyInjection/Injector.cs:93-98 | Resolving a parameter list succeeds iff every type is registered. The arguments are the registry's instances in parameter order. Otherwise the failure names the first unregistered parameter type. |
| Registration.RegisterOps | Assets/Scripts/DependencyInjection/Injector.cs:110-128 | Register on a list of methods: every earlier key stays, and a failure is never Unresolved, only a null result or a duplicate type. Its full behaviour is specified by RegisterKeepsEntries, RegisterSucceedsIff, RegisterSuccess and RegisterFailure. |
| Registration.RegisterAll | Assets/Scripts/DependencyInjection/Injector.cs:27-31 | The registration loop of Awake: every earlier key stays, and a failure is never Unresolved. RegisterAllFlattens specifies it as one Register over all provider methods in scene order. |
| Registration.ProvidedTypes | Assets/Scripts/DependencyInjection/Injector.cs:159-167 | A type is in the provided set iff some [Provide] method has it as its return type. No method is invoked. |
| Registration.RegisterKeepsEntries | Assets/Scripts/DependencyInjection/Injector.cs:114-127 | Register never removes or replaces an entry. Every new entry is the non-null value a [Provide] method returned for that return type. |
| Registration.RegisterSucceedsIff | Assets/Scripts/DependencyInjection/Injector.cs:114-127 | Register succeeds iff every [Provide] method returns non-null and no return type repeats or is already registered. |
| Registration.RegisterSuccess | Assets/Scripts/DependencyInjection/Injector.cs:114-127 | After a successful Register, the keys are the old keys plus the provided types. Each [Provide] return type maps to exactly what its method returned; unmarked methods add nothing. |
| Registration.RegisterFailure | Assets/Scripts/DependencyInjection/Injector.cs:120-126 | A failing Register names a [Provide] method that returned null, or one whose return type was already registered or provided earlier. |
| Registration.RegisterOpsAppend | Assets/Scripts/DependencyInjection/Injector.cs:114-127 | Registering two method lists in a row equals registering the first, then the second unless the first failed. |
| Registration.RegisterAllFlattens | Assets/Scripts/DependencyInjection/Injector.cs:27-31 | Registering provider after provider, stopping at the first failure, equals registering all their methods as one list in scene order. |
| Registration.ProvidedTypesAppend | Assets/Scripts/DependencyInjection/Injector.cs:157-168 | The provided set of two method lists is the union of theirs. |
| Registration.ProvidedTypesSnocUnion | Assets/Scripts/DependencyInjection/Injector.cs:161-167 | One more method adds its return type to the collected set when it is marked [Provide], and nothing otherwise. |
| Registration.ProvidedAt | Assets/Scripts/DependencyInjection/Injector.cs:157-168 | The types the first i + 1 components provide are those of the first i plus those of component i when it is a provider. |
| Registration.RegisterAllAt | Assets/Scripts/DependencyInjection/Injector.cs:28-31 | One round of the registration loop: a non-provider is passed over, and a provider is registered and ends the loop if Register fails. |
| Registration.ProviderMethodsSnoc | Assets/Scripts/DependencyInjection/Injector.cs:157-159 | Adding one component to the end of the scene appends its [Provide] methods, if it is a provider. |
| Injection.FieldsFrom | Assets/Scripts/DependencyInjection/Injector.cs:54-70 | The field loop of Inject keeps the number of fields and fails only with Unresolved on a type the registry lacks. FieldsFromSpec gives its closed form. |
| Injection.PropertiesFrom | Assets/Scripts/DependencyInjection/Injector.cs:76-85 | The property loop of Inject keeps the number of properties and fails only with Unresolved on a type the registry lacks. PropertiesFromSpec gives its closed form. |
| Injection.MethodsFrom | Assets/Scripts/DependencyInjection/Injector.cs:91-102 | The method loop of Inject fails only with Unresolved on a type the registry lacks. MethodsFromSpec gives its closed form. |
| Injection.Injected | Assets/Scripts/DependencyInjection/Injector.cs:46-103 | Inject on one component keeps the component's shape and its earlier invocations as a prefix, and fails only with Unresolved on a type the registry lacks. InjectSucceedsIff and InjectSuccess specify it. |
| Injection.InjectAll | Assets/Scripts/DependencyInjection/Injector.cs:34-38 | The injection loop of Awake keeps every component's descriptor and the scene's length, and fails only with Unresolved on a type the registry lacks. InjectAllSpec gives its closed form. |
| Injection.FieldsFromSpec | Assets/Scripts/DependencyInjection/Injector.cs:54-70 | The field loop, up to the first missing field f: a field already set, not marked [Inject], or after f is untouched. Every null [Inject] field before f gets exactly the registry's instance. The loop fails with Unresolved on f's type, or succeeds when there is no f. |
| Injection.PropertiesFromSpec | Assets/Scripts/DependencyInjection/Injector.cs:76-85 | The property loop, up to the first unresolvable [Inject] property f: every [Inject] property before f is overwritten with the registry's instance, whatever it held. Other properties are untouched. The loop fails with Unresolved on f's type. |
| Injection.MethodsFromSpec | Assets/Scripts/DependencyInjection/Injector.cs:91-102 | The method loop, up to the first method f with an unregistered parameter type: each [Inject] method before f is invoked exactly once, in order, with the resolved arguments in parameter order. Method f is not invoked, and the failure is its first unregistered parameter type. |
| Injection.InjectSucceedsIff | Assets/Scripts/DependencyInjection/Injector.cs:46-103 | Inject on a component succeeds iff every null [Inject] field type, every [Inject] property type and every [Inject] method parameter type is registered. |
| Injection.InjectSuccess | Assets/Scripts/DependencyInjection/Injector.cs:46-103 | After a successful Inject: already-set [Inject] fields keep their value, and null ones hold the registry's instance. [Inject] properties hold the registry's instance. Unmarked members are untouched, and earlier invocations are kept as a prefix. The new invocations are each [Inject] method once, in the descriptor's (reflection) order, with the registry's instances for its parameters in order. |
| Descriptors.IsInjectable | Assets/Scripts/DependencyInjection/Injector.cs:201-205 | Holds iff some field, property or method of the component carries [Inject]. It has no contract of its own; NonInjectableUntouched states what the filter means for Inject. |
| Injection.NonInjectableUntouched | Assets/Scripts/DependencyInjection/Injector.cs:201-205 | A component for which IsInjectable is false (no field, property or method marked [Inject]) would be left exactly as it is by Inject and would not fail. So the IsInjectable filter only skips work. |
| Injection.FirstFailingCandidateFrame | Assets/Scripts/DependencyInjection/Injector.cs:34-38 | The first component whose Inject fails depends only on the components not yet processed, and on their descriptors and member values. |
| Injection.InjectAllSpec | Assets/Scripts/DependencyInjection/Injector.cs:34-38 | The injection loop, up to the first injectable component f whose Inject fails: every injectable component before f is injected in full. Component f keeps the writes made before its failure. Components after f and non-injectable ones are untouched. The loop's failure is f's. |
| Injection.InjectAllContinue | Assets/Scripts/DependencyInjection/Injector.cs:34-38 | When an injectable component's Inject succeeds, the closed form of the injection loop from that component follows from the closed form from the next one, over the updated scene. |
| Injection.InjectAllOneStep | Assets/Scripts/DependencyInjection/Injector.cs:35-38 | One round of the injection loop: a failing Inject ends the loop with the scene as it then stands; a successful one continues with the next component. |
| Bootstrapping.Bootstrap | Assets/Scripts/DependencyInjection/Injector.cs:22-39 | Awake as a function: every earlier key stays, and a registration failure (one that is not Unresolved) leaves every component as it was. BootstrapSpec gives its closed form. |
| Bootstrapping.BootstrapSpec | Assets/Scripts/DependencyInjection/Injector.cs:22-39 | Awake registers every provider method in scene order before any component is injected. If registration fails, no component is touched and the registry keeps the entries added so far. Otherwise injection runs fail-fast against the complete registry. |
| Bootstrapping.BootstrapSucceedsIff | Assets/Scripts/DependencyInjection/Injector.cs:22-39 | Awake succeeds iff registration can go through and every injectable component asks only for types the complete registry holds. |
| Bootstrapping.BootstrapSuccess | Assets/Scripts/DependencyInjection/Injector.cs:22-39 | After a successful Awake, the registry keeps every old entry with its value and has exactly the old keys plus the provided types. Each [Provide] method's return type maps to the instance that method returned. Every injectable component is injected in full, and every other component is unchanged. |
| Bootstrapping.FailureFreeScene | Assets/Scripts/DependencyInjection/Injector.cs:34-38 | When the injection loop reports no failure, every injectable component was injected in full. |
| DemoScene.GameProviderRegisters | Assets/Scripts/Demo/Providers/GameProvider.cs:10-20 | Register on a GameProvider creating any two instances adds them under the HealthService and WeaponService types to a registry holding neither. On a registry already holding a HealthService, it fails with DuplicateKey. |
| DemoScene.PlayerInjected | Assets/Scripts/Demo/Consumers/Player.cs:9-10 | Player's two null [Inject] fields receive the HealthService and the WeaponService. |
| DemoScene.EnemyInjected | Assets/Scripts/Demo/Consumers/Enemy.cs:9 | Enemy's null [Inject] field receives the same HealthService instance. |
| DemoScene.DemoRegistration | Assets/Scripts/DependencyInjection/Injector.cs:27-31 | Registration over the demo scene passes over Player and Enemy and fills the registry with GameProvider's two services. |
| DemoScene.DemoInjection | Assets/Scripts/DependencyInjection/Injector.cs:34-38 | Injection over the demo scene under that registry fills Player's and Enemy's fields and leaves GameProvider as it is. |
| DemoScene.DemoBootstrap | Assets/Scripts/Demo/Providers/GameProvider.cs:8-21 | Awake on the scene Player, Enemy, GameProvider succeeds even with the provider listed last. Player and Enemy share the one HealthService, Player gets the WeaponService, and the provider is unchanged. |
| DemoScene.DemoMissingProvider | Assets/Scripts/DependencyInjection/Injector.cs:63-67 | Without a provider, Awake fails with Unresolved on the HealthService type at Player, and Enemy is never touched. |
| DemoScene.DemoDuplicateProvider | Assets/Scripts/DependencyInjection/Injector.cs:123-124 | With two GameProviders, each creating its own instances, Dictionary.Add fails on the HealthService type at the second one and no component is injected. |
| Validation.FieldFlags | Assets/Scripts/DependencyInjection/Injector.cs:137-139 | The flags on one component are exactly its null [Inject] fields whose type is not provided, in field order without repeats. |
| Validation.MissingDependencies | Assets/Scripts/DependencyInjection/Injector.cs:136-140 | A (component, field, type) entry is listed iff that field is a null [Inject] field whose type is not provided. The list is in scene order, then field order, without repeats. |
| Validation.Validate | Assets/Scripts/DependencyInjection/Injector.cs:130-152 | The report is "all valid" iff no field is flagged. Otherwise it lists exactly the flagged fields in scene and field order, with the provided set taken from [Provide] return types only. |
| Validation.SortedUnique | Assets/Scripts/DependencyInjection/Injector.cs:136-140 | Two lists in strict scene-then-field order with the same entries are equal. |
| Validation.ValidateListIsDetermined | Assets/Scripts/DependencyInjection/Injector.cs:136-148 | Any non-empty list in scene-then-field order holding exactly the flagged fields is the one Validate reports. |
| Validation.BootableSceneIsValid | Assets/Scripts/DependencyInjection/Injector.cs:130-152 | Validation never flags a scene on which Awake from an empty registry succeeds. So a flag predicts that Awake will fail. |
| Validation.ValidAfterBootstrap | Assets/Scripts/DependencyInjection/Injector.cs:130-152 | After a successful Awake, validation reports every dependency valid. |
| DependencyInjection.Injector.constructor | Assets/Scripts/DependencyInjection/Injector.cs:19 | A new injector's registry is empty. |
| DependencyInjection.Injector.Register | Assets/Scripts/DependencyInjection/Injector.cs:110-128 | The loop leaves the registry and failure that RegisterOps gives for the old registry and the provider's methods. |
| DependencyInjection.Injector.InjectFields | Assets/Scripts/DependencyInjection/Injector.cs:54-70 | The field loop leaves the fields and failure that FieldsFrom gives for the component's old fields. |
| DependencyInjection.Injector.InjectProperties | Assets/Scripts/DependencyInjection/Injector.cs:76-85 | The property loop leaves the properties and failure that PropertiesFrom gives for the component's old properties. |
| DependencyInjection.Injector.InjectMethods | Assets/Scripts/DependencyInjection/Injector.cs:91-102 | The method loop appends to the invocation record the calls MethodsFrom gives, and leaves its failure. |
| DependencyInjection.Injector.Inject | Assets/Scripts/DependencyInjection/Injector.cs:46-103 | The three loops leave the component's fields, properties and invocations, and the failure, that Injected gives for the component's old state. |
| DependencyInjection.Injector.Awake | Assets/Scripts/DependencyInjection/Injector.cs:22-39 | On a scene of distinct components, Awake runs the registration loop and then, only if it succeeded, the injection loop. It leaves the registry, every component's state and the failure that Bootstrap gives for the old registry and scene. |
| DependencyInjection.Injector.RegisterProviders | Assets/Scripts/DependencyInjection/Injector.cs:27-31 | The registration loop calls Register on each provider in scene order. It leaves the registry and failure that RegisterAll gives for the old registry and scene. |
| DependencyInjection.Injector.InjectInjectables | Assets/Scripts/DependencyInjection/Injector.cs:34-38 | The injection loop calls Inject on each injectable component in scene order. It leaves every component's state and the failure that InjectAll gives for the old scene. |
| DependencyInjection.Injector.InjectAt | Assets/Scripts/DependencyInjection/Injector.cs:35-38 | Inject on component i changes no other component. A failure ends the loop with the outcome InjectAll gives; otherwise the loop continues on course from component i + 1. |
| DependencyInjection.Injector.GetProvidedDependencies | Assets/Scripts/DependencyInjection/Injector.cs:154-171 | The nested loops return exactly ProvidedTypes of the providers' methods, in scene order, and change nothing. |
| DependencyInjection.Injector.AddProvided | Assets/Scripts/DependencyInjection/Injector.cs:161-167 | The inner loop adds to the set exactly the return types of one provider's [Provide] methods. |
| DependencyInjection.Injector.ValidateDependencies | Assets/Scripts/DependencyInjection/Injector.cs:130-152 | The report is Validate of the scene as it stands, and nothing is changed. |
| Health.Wrap32 | Assets/Scripts/Demo/Services/HealthService.cs:12 | The result is the int32 congruent to the exact value modulo 2^32, and equals it when it is in range. |
| Health.Min | Assets/Scripts/Demo/Services/HealthService.cs:19 | Mathf.Min returns one of its arguments and is at most both. |
| Health.Clamp | Assets/Scripts/Demo/Services/HealthService.cs:25 | Mathf.Clamp gives lo below lo, the value itself in [lo, hi], and hi above hi when the value is not below lo. With lo <= hi the result lies in [lo, hi]. |
| Health.AfterDamage | Assets/Scripts/Demo/Services/HealthService.cs:10-14 | TakeDamage leaves exactly the old health minus the amount, with no lower bound, whenever that difference fits in an int. |
| Health.AfterHeal | Assets/Scripts/Demo/Services/HealthService.cs:16-21 | Heal leaves at most the maximum health. Without overflow it leaves exactly min(old + amount, maximum). |
| Health.AfterSetHealth | Assets/Scripts/Demo/Services/HealthService.cs:23-27 | SetHealth leaves a health in [0, maximum]: h itself when in range, 0 below, the maximum above. The previous health plays no part. |
| Health.HealthService.constructor | Assets/Scripts/Demo/Services/HealthService.cs:7-8 | A new service has health 100 and maximum health 100. |
| Health.HealthService.TakeDamage | Assets/Scripts/Demo/Services/HealthService.cs:10-14 | The health becomes AfterDamage of the old health, and the maximum is unchanged. |
| Health.HealthService.Heal | Assets/Scripts/Demo/Services/HealthService.cs:16-21 | The health becomes AfterHeal of the old health, and the maximum is unchanged. |
| Health.HealthService.SetHealth | Assets/Scripts/Demo/Services/HealthService.cs:23-27 | The health becomes AfterSetHealth of the argument, and the maximum is unchanged. |
| Health.SetHealthIdempotent | Assets/Scripts/Demo/Services/HealthService.cs:23-27 | Setting the health to what SetHealth produced changes nothing. |
| Health.DamageCanGoNegative | Assets/Scripts/Demo/Services/HealthService.cs:10-14 | TakeDamage(150) at health 100 leaves -50. |
| Health.HealOverflowLowersHealth | Assets/Scripts/Demo/Services/HealthService.cs:18-19 | As written, Heal(int.MaxValue) at full health 100 leaves -2147483549. |
| Health.SaturatingAdd | Assets/Scripts/Demo/Services/HealthService.cs:18 | The sum is exact in range and saturates at the int bounds instead of wrapping. |
| Health.AfterHealIntended | Assets/Scripts/Demo/Services/HealthService.cs:16-21 | The corrected Heal never exceeds the maximum. |
| Health.IntendedHealNeverLowers | Assets/Scripts/Demo/Services/HealthService.cs:16-21 | For a non-negative amount, the corrected Heal always gives exactly min(old + amount, maximum), and from a health at most the maximum it never lowers the health. It agrees with Heal as written whenever the sum does not overflow. |

## Left out

- Reflection (`GetFields`, `GetProperties`, `GetMethods`, `Attribute.IsDefined`, `GetValue`, `SetValue`, `Invoke`) is replaced by descriptors. Member enumeration order is the given sequence order.
- Scene enumeration (`FindObjectsOfType`, Injector.cs lines 191-194) is left out. `Awake` and `ValidateDependencies` take the scene as a parameter, and `Awake` requires its components to be distinct objects.
- `[DefaultExecutionOrder]` and the Unity lifecycle are left out.
- `Debug.Log`, `Debug.LogWarning` and `Debug.LogError` output and all message texts are left out. The warning for an already-set field is not recorded, and `ValidateDependencies` returns its findings as a `Report` instead of logging them.
- A `[Provide]` method's return value is given in its descriptor. It is invoked with no arguments, and what the invoked code does is not modelled. An exception it throws, or a `[Provide]` method with parameters (which makes `Invoke(provider, null)` throw), is not modelled.
- An invoked `[Inject]` method is recorded as a `Call`. Its effect on the component, and any exception it throws, are not modelled.
- Exceptions from reflection on unusual members are not modelled: a property without a setter, a value-type field (never null, so always skipped), and type compatibility beyond exact `TypeKey` equality.
- DependencyInjection.Injector.Awake: does not model a scene listing the same component twice, because the `requires` excludes such scenes so that in-place writes to one component cannot alias another entry.
- `ValidateDependencies` has no caller in the source. It is modelled as a method that can be called on its own.
- `HealthService` has no `Debug.Log` output in the model.

## Findings

| source | as written | input that shows it | evidently intended | confidence | as-written member | corrected member |
|---|---|---|---|---|---|---|
| Assets/Scripts/Demo/Services/HealthService.cs:18-19 | `_health += amount` wraps around in unchecked C# arithmetic before `Mathf.Min` caps it, so a heal can lower the health below zero | health 100, maximum 100, `Heal(int.MaxValue)`: the health becomes -2147483549 | from a health at most the maximum, a non-negative heal never lowers the health; the result is always min(health + amount, maximum) | not executed | Health.HealOverflowLowersHealth | Health.IntendedHealNeverLowers |
