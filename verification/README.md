# EGamePlay combat core in Dafny

This project models two pieces of the EGamePlay combat framework and proves
properties about them.

**Entity hierarchy and component registry** (`Entity.cs`). An `Entity` has:

- an `Id`, and it counts as disposed when the `Id` is zero;
- a parent back-reference;
- an ordered child list (`Children`), plus a per-runtime-type index of the children (`Type2Children`);
- a dictionary from component type to component (`Components`).

The entity links and unlinks children, adds, removes and looks up
components, disposes itself recursively, and creates its event component on
demand for `Publish`/`Subscribe`.

The model is the class `Entities.World`, whose methods update its fields in
place:

- Entity objects are handles (`EntityRef`), and each handle carries its runtime type.
- Their mutable fields form an `EntityState`, held in a map from handle to state.
- The global component set of `EntityFactory.GlobalEntity` is the field `AllComponents`.
- Calls into component code (setup, dispose, publish, subscribe) are appended to a `Trace`.

Each method is proved against a specification function in `EntitySpec`:
`WithChild`, `WithoutChild`, `Reparent`, `WithComponent`, `WithoutComponent`,
and `DisposeRun`/`DisposeAll` for the recursive disposal. The properties of
the hierarchy are lemmas about those functions:

- the child list and the per-type buckets stay in step;
- single parentage survives `SetParent`;
- `Dispose` clears exactly the entities reachable below the disposed one and leaves every other entity as it was;
- it calls `Dispose` once on each component held by a reached entity and on no other component, disposing the children before the entity's own components;
- disposing an entity a second time, straight after the first disposal, changes nothing and makes no call. More generally, this holds for any entity that is still in its cleared state. `Dispose` does not test whether the entity is already disposed, so one with `Id == 0` that has since gained a child or a component is disposed again in full.

**Damage resolution** (`DamageOperation.cs`). `BeforeDamage` computes the
damage value in one of three ways:

- an Attack uses `max(1, attack - defense)`, times 1.5 when the hit is critical;
- a Skill parses its `Expression` with `int.Parse`;
- a Buff leaves the value alone.

`ApplyDamage` then hands the operation to the target and triggers both
sides' reactions.

- The formula is the function `DamageOperations.BeforeDamageEffect`.
- The operation object is the class `DamageOperations.DamageOperation`, whose methods update `DamageValue` and `IsCritical` in place and append the calls made into the combatants to a trace.
- `int.Parse` is modelled in `Int32Text`, with its whitespace trimming, optional sign, format errors and overflow. It comes with a parse/format round trip.

Two behaviours of the code are worth stating directly:

- A Skill leaves `IsCritical` as it was; nothing on the Skill path resets it.
- `Entity.cs` itself does not remove a component from the global component set in `Dispose` or `RemoveComponent`. What `Component.Dispose` does to the component's `IsDispose` flag and to the global set is not part of this model.

## Model

| member | source | states |
|---|---|---|
| EntitySpec.IsDisposed | Assets/EGamePlay/Entity/Entity.cs:15 | `IsDispose`: an entity counts as disposed iff its `Id` is 0 |
| EntitySpec.Cleared | Assets/EGamePlay/Entity/Entity.cs:45-52 | the state `Dispose` leaves: `Id` 0, no children, no buckets, no components, with the parent back-reference untouched; DisposeClearedNoop shows disposing it again changes nothing |
| EntitySpec.AttachChild | Assets/EGamePlay/Entity/Entity.cs:108-113 | the parent side of `AddChild`: the child list gains exactly one listing of the child, the child's type gains a bucket if it had none, and the `Id`, parent and components are unchanged; AttachKeepsSynced keeps list and buckets in step |
| EntitySpec.DetachChild | Assets/EGamePlay/Entity/Entity.cs:122-126 | the parent side of `RemoveChild`: the child list loses exactly one listing of the child (none if absent), no bucket is created or dropped, and the `Id`, parent and components are unchanged; DetachKeepsSynced keeps list and buckets in step |
| EntitySpec.WithComponent | Assets/EGamePlay/Entity/Entity.cs:78 | `Components.Add`: the kind is filed with the new component, the other kinds keep their entries, the enumeration gains exactly one listing of the kind, and the children, parent and `Id` are unchanged |
| EntitySpec.WithoutComponent | Assets/EGamePlay/Entity/Entity.cs:88 | `Components.Remove`: the kind is no longer filed, the other kinds keep their entries, the enumeration loses exactly one listing of it, and the children, parent and `Id` are unchanged |
| EntitySpec.RemoveFirst | Assets/EGamePlay/Entity/Entity.cs:122-125 | `List.Remove` drops exactly one occurrence of the element when it is present (multiset difference) and leaves the list alone when it is absent; which occurrence is stated by RemoveFirstDropsFirst |
| EntitySpec.FirstIndex | Assets/EGamePlay/Entity/Entity.cs:122-125 | the position `List.Remove` searches for: the element is absent before it, is there when the position is inside the list, and the position is the length iff the element is absent |
| EntitySpec.RemoveFirstDropsFirst | Assets/EGamePlay/Entity/Entity.cs:122-125 | `List.Remove` drops the first occurrence and keeps the order of everything else |
| EntitySpec.OfKindMembers | Assets/EGamePlay/Entity/Entity.cs:106-113 | an entity is in the children of kind k iff it is a child and its runtime type is k |
| EntitySpec.OfKindAppend | Assets/EGamePlay/Entity/Entity.cs:108-113 | appending a child extends the children of its own kind by it and leaves every other kind unchanged |
| EntitySpec.OfKindRemoveFirst | Assets/EGamePlay/Entity/Entity.cs:122-126 | removing a child from the list is the same as removing it from the bucket of its own kind, and leaves every other kind unchanged |
| EntitySpec.ComponentDisposals | Assets/EGamePlay/Entity/Entity.cs:47-50 | enumerating the components makes one `Dispose` call per enumerated kind, in enumeration order, each on the component filed under that kind |
| EntitySpec.DisposeRun | Assets/EGamePlay/Entity/Entity.cs:38-56 | disposal only clears entities whose disposal is not already running, clears the disposed entity itself, and leaves every child of it cleared; the exact effect is stated by DisposeRunClears and DisposeRunDisposesEach |
| EntitySpec.DisposeAll | Assets/EGamePlay/Entity/Entity.cs:41-44 | disposing a list of children one after another leaves every one of them cleared and touches nothing but cleared states |
| EntitySpec.NoCycleShrinks | Assets/EGamePlay/Entity/Entity.cs:41-46 | removing child links keeps disposal terminating, so later siblings can still be disposed after earlier ones have cleared their lists |
| EntitySpec.DisposalsFollowOrder | Assets/EGamePlay/Entity/Entity.cs:47-50 | each component gets as many `Dispose` calls as its kind occurs in the enumeration order |
| EntitySpec.EachComponentDisposedOnce | Assets/EGamePlay/Entity/Entity.cs:47-50 | `Dispose` calls `Dispose` exactly once on every component the entity holds |
| EntitySpec.DisposeClearedNoop | Assets/EGamePlay/Entity/Entity.cs:38-56 | disposing an entity that is still in its cleared state (no children, buckets or components gained since) changes nothing and makes no call |
| EntitySpec.DisposeIdempotent | Assets/EGamePlay/Entity/Entity.cs:38-56 | disposing an entity a second time, straight after the first disposal, changes nothing and makes no call |
| EntitySpec.DisposeRunCalls | Assets/EGamePlay/Entity/Entity.cs:38-56 | every call that disposal makes is a component `Dispose`, on a component held by an entity whose disposal was not already running |
| EntitySpec.DisposeAllCalls | Assets/EGamePlay/Entity/Entity.cs:41-44 | the same for the loop over the children |
| EntitySpec.ChildrenBeforeOwnComponents | Assets/EGamePlay/Entity/Entity.cs:41-50 | the entity's own components are disposed last, one call each, and no earlier call of the disposal touches any of them |
| EntitySpec.Below | Assets/EGamePlay/Entity/Entity.cs:38-46 | the entities a disposal reaches: the entity itself, when it is not already being disposed, and everything reached from its children; all are known entities outside the running chain |
| EntitySpec.BelowAll | Assets/EGamePlay/Entity/Entity.cs:41-44 | the entities reached from a list of children: known entities outside the running chain |
| EntitySpec.BelowAllHas | Assets/EGamePlay/Entity/Entity.cs:41-44 | everything reached from one child is reached from the list holding it |
| EntitySpec.BelowAllFrom | Assets/EGamePlay/Entity/Entity.cs:41-44 | everything reached from a list is reached from one of its children |
| EntitySpec.BelowClosed | Assets/EGamePlay/Entity/Entity.cs:41-44 | without cycles, every child of a reached entity is reached too |
| EntitySpec.BelowAllClosed | Assets/EGamePlay/Entity/Entity.cs:41-44 | the same for a list of children: the reached set is closed under child links |
| EntitySpec.BelowWithin | Assets/EGamePlay/Entity/Entity.cs:41-44 | a disposal reaches nothing outside a set closed under child links that holds its start |
| EntitySpec.BelowAllWithin | Assets/EGamePlay/Entity/Entity.cs:41-44 | the same for a list of children |
| EntitySpec.BelowAfterClearing | Assets/EGamePlay/Entity/Entity.cs:41-46 | after an earlier sibling's disposal has cleared a closed set, a later sibling reaches the same entities outside that set as before |
| EntitySpec.BelowAllAfterClearing | Assets/EGamePlay/Entity/Entity.cs:41-46 | the same for a list of children |
| EntitySpec.ClearedOnCompose | Assets/EGamePlay/Entity/Entity.cs:41-44 | clearing one set of entities and then another clears their union |
| EntitySpec.DisposeRunClears | Assets/EGamePlay/Entity/Entity.cs:38-56 | `Dispose` clears exactly the entities reachable below the disposed one, at any depth, and leaves every other entity as it was |
| EntitySpec.DisposeAllClears | Assets/EGamePlay/Entity/Entity.cs:41-44 | disposing the children one after another clears exactly the entities reachable from them and leaves every other entity as it was |
| EntitySpec.ClearingKeepsHolders | Assets/EGamePlay/Entity/Entity.cs:45-50 | clearing entities keeps every component filed under its own kind, enumerated once and owned by the entity holding it |
| EntitySpec.HeldAfterClearing | Assets/EGamePlay/Entity/Entity.cs:41-50 | once a set of entities is cleared, a component is held within another set iff it was held, before, within that set outside the cleared entities |
| EntitySpec.OwnDisposals | Assets/EGamePlay/Entity/Entity.cs:47-50 | an entity's own component loop disposes exactly the components that entity holds, once each |
| EntitySpec.DisposalsUnion | Assets/EGamePlay/Entity/Entity.cs:41-50 | calls disposing the components of two disjoint sets of entities once each together dispose those of the union once each |
| EntitySpec.DisposalsCombine | Assets/EGamePlay/Entity/Entity.cs:41-44 | the calls of one child's disposal, followed by the next child's after the first has cleared its entities, dispose each component of all reached entities once |
| EntitySpec.DisposeRunDisposesEach | Assets/EGamePlay/Entity/Entity.cs:38-56 | `Dispose` calls `Dispose` exactly once on each component held by an entity reachable below the disposed one, at any depth, and never on any other component |
| EntitySpec.DisposeAllDisposesEach | Assets/EGamePlay/Entity/Entity.cs:41-44 | disposing the children one after another calls `Dispose` once on each component held by an entity reachable from them, and on no other |
| EntitySpec.UpdateWellFormed | Assets/EGamePlay/Entity/Entity.cs:12-18 | replacing one entity's fields by fields that fit the population keeps the whole population well formed |
| EntitySpec.EvolvesWellFormed | Assets/EGamePlay/Entity/Entity.cs:45-52 | clearing entities as `Dispose` does keeps the population well formed |
| EntitySpec.WithChild | Assets/EGamePlay/Entity/Entity.cs:106-118 | the population after `AddChild` has the same entities; what changes is stated by WithChildChanges, AttachKeepsSynced and WithChildLinked |
| EntitySpec.WithoutChild | Assets/EGamePlay/Entity/Entity.cs:120-131 | the population after `RemoveChild` has the same entities; what changes is stated by WithoutChildChanges, DetachKeepsSynced and WithoutChildLinked |
| EntitySpec.Orphan | Assets/EGamePlay/Entity/Entity.cs:102 | leaving the current parent keeps the same entities; its effect on the links is stated by OrphanLinked |
| EntitySpec.Reparent | Assets/EGamePlay/Entity/Entity.cs:100-104 | `SetParent` keeps the same entities; single parentage afterwards is stated by ReparentLinked |
| EntitySpec.AttachKeepsSynced | Assets/EGamePlay/Entity/Entity.cs:106-114 | `AddChild` keeps `Children` and `Type2Children` in step, files the child in both, and adds exactly one listing of it |
| EntitySpec.OfKindNone | Assets/EGamePlay/Entity/Entity.cs:109-112 | a bucket created for a type that no child has starts out equal to the (empty) children of that type |
| EntitySpec.RemoveFirstAppended | Assets/EGamePlay/Entity/Entity.cs:106-125 | removing a just-appended element that was not already present restores the list |
| EntitySpec.AddThenRemoveChild | Assets/EGamePlay/Entity/Entity.cs:106-131 | adding a new child and removing it restores the child list and leaves the child parentless; the bucket of its type stays and is empty when it did not exist before |
| EntitySpec.DetachKeepsSynced | Assets/EGamePlay/Entity/Entity.cs:120-127 | `RemoveChild` keeps `Children` and `Type2Children` in step and drops exactly one listing of the child |
| EntitySpec.SyncedMembership | Assets/EGamePlay/Entity/Entity.cs:17-18 | while in step, a child is in `Children` iff it is in the bucket of its own type |
| EntitySpec.WithChildChanges | Assets/EGamePlay/Entity/Entity.cs:106-114 | `AddChild` appends the child to the parent's list, sets the child's parent, and changes no other entity's list or parent |
| EntitySpec.WithoutChildChanges | Assets/EGamePlay/Entity/Entity.cs:120-127 | `RemoveChild` drops one listing of the child, clears its parent, and changes no other entity's list or parent |
| EntitySpec.PointBackAfterDetach | Assets/EGamePlay/Entity/Entity.cs:120-127 | after detaching a child from its parent, every listed child still points back at its lister, and no entity lists the detached child |
| EntitySpec.OnceAfterDetach | Assets/EGamePlay/Entity/Entity.cs:120-127 | after the detach, every entity with a parent is listed exactly once by it |
| EntitySpec.PointBackAfterAttach | Assets/EGamePlay/Entity/Entity.cs:106-114 | attaching an unlisted child keeps every listed child pointing back at its lister |
| EntitySpec.OnceAfterAttach | Assets/EGamePlay/Entity/Entity.cs:106-114 | attaching an unlisted, parentless child keeps every entity with a parent listed exactly once by it |
| EntitySpec.WithoutChildLinked | Assets/EGamePlay/Entity/Entity.cs:120-131 | `RemoveChild` from the child's own parent keeps the links consistent and leaves the child parentless and listed by no entity |
| EntitySpec.WithChildLinked | Assets/EGamePlay/Entity/Entity.cs:106-118 | `AddChild` of a parentless child keeps the links consistent, with the child listed exactly once under its new parent |
| EntitySpec.OrphanLinked | Assets/EGamePlay/Entity/Entity.cs:102 | leaving the parent keeps the links consistent; afterwards the child has no parent and is in no child list |
| EntitySpec.LinksKept | Assets/EGamePlay/Entity/Entity.cs:73-98 | a change that keeps every entity's child list and parent keeps single parentage |
| EntitySpec.LinksKeptFresh | Assets/EGamePlay/Entity/Entity.cs:12-26 | adding a fresh entity with no parent and no children keeps single parentage |
| EntitySpec.ComponentsKeepLinks | Assets/EGamePlay/Entity/Entity.cs:73-89 | replacing one entity's components, with its child list and parent kept, keeps single parentage |
| EntitySpec.UnlistedWhenParentless | Assets/EGamePlay/Entity/Entity.cs:13-17 | with consistent back-references, an entity without a parent is in no child list |
| EntitySpec.ReparentLinked | Assets/EGamePlay/Entity/Entity.cs:100-104 | single parentage under `SetParent`: the child's parent is the new one, it is listed exactly once under it and in no other entity's list, and the links stay consistent |
| EntitySpec.WellFormedOrders | Assets/EGamePlay/Entity/Entity.cs:16 | in a well-formed population every enumerated component kind has a component, and each component is owned by the entity holding it; every entity files each component under the component's own kind and enumerates each kind once |
| EntitySpec.AddComponentWellFormed | Assets/EGamePlay/Entity/Entity.cs:75-79 | filing a fresh component, owned by the entity and registered globally, keeps the population well formed |
| EntitySpec.RegisterWellFormed | Assets/EGamePlay/Entity/Entity.cs:75-79 | registering a fresh component, not yet filed, keeps the population well formed |
| EntitySpec.WithComponentEnumerates | Assets/EGamePlay/Entity/Entity.cs:78 | adding a new kind keeps every component kind enumerated exactly once, so a kind appears at most once per entity |
| EntitySpec.RemoveComponentWellFormed | Assets/EGamePlay/Entity/Entity.cs:85-89 | removing one kind keeps the population well formed and its enumeration exact |
| EntitySpec.WithChildWellFormed | Assets/EGamePlay/Entity/Entity.cs:106-118 | `AddChild` keeps the population well formed |
| EntitySpec.DetachFits | Assets/EGamePlay/Entity/Entity.cs:120-126 | the parent's state after `RemoveChild` still fits the population |
| EntitySpec.WithoutChildWellFormed | Assets/EGamePlay/Entity/Entity.cs:120-131 | `RemoveChild` keeps the population well formed |
| Entities.World.constructor | Assets/EGamePlay/Entity/Entity.cs:16-26 | an empty population, with no components and no calls |
| Entities.World.CreateEntity | Assets/EGamePlay/Entity/Entity.cs:12-26 | a fresh entity that is not disposed, with no parent, no children, no buckets and no components; nothing else changes; single parentage, when it holds before, still holds after |
| Entities.World.AddComponent | Assets/EGamePlay/Entity/Entity.cs:73-83 | a duplicate kind fails and changes nothing, not even the global set; otherwise a fresh component owned by the entity and not disposed is filed under the kind, added to the global set and set up, and the other entries are unchanged; single parentage, when it holds before, still holds after |
| Entities.World.RemoveComponent | Assets/EGamePlay/Entity/Entity.cs:85-89 | an absent kind fails and changes nothing; otherwise the component is disposed and only its key is dropped; single parentage, when it holds before, still holds after |
| Entities.World.GetComponent | Assets/EGamePlay/Entity/Entity.cs:91-98 | never fails; returns the component filed under the kind, which is of that kind and owned by the entity, or null iff there is none |
| Entities.World.AddChild | Assets/EGamePlay/Entity/Entity.cs:106-118 | the population becomes `WithChild`; the child is in the list and in its type's bucket, and its parent is set; a parentless child ends up listed once, with the links consistent |
| Entities.World.RemoveChild | Assets/EGamePlay/Entity/Entity.cs:120-131 | the population becomes `WithoutChild`; the child's parent is cleared; removing it from its own parent leaves it in no list, with the links consistent |
| Entities.World.SetParent | Assets/EGamePlay/Entity/Entity.cs:100-104 | the population becomes `Reparent`; the child's parent is the new one; from consistent links it is listed once under the new parent and by no other entity |
| Entities.World.GetChildren | Assets/EGamePlay/Entity/Entity.cs:133-136 | a snapshot of the child list that agrees with every bucket |
| Entities.World.GetTypeChildren | Assets/EGamePlay/Entity/Entity.cs:138-141 | fails iff the entity has no bucket for the type (none was ever created, or `Dispose` cleared them); otherwise returns exactly the children of that type, in list order (empty once they are all removed) |
| Entities.World.Dispose | Assets/EGamePlay/Entity/Entity.cs:38-56 | the population and the calls are those of `DisposeRun`: exactly the entities reachable below the entity are cleared and all others are unchanged, and each component held by a reached entity gets one `Dispose` call while no other component gets any; the entity ends disposed (`Id == 0`) with no children, no buckets and no components; the population stays well formed |
| Entities.World.DisposeChildren | Assets/EGamePlay/Entity/Entity.cs:41-44 | disposes the children in list order, with the effect of `DisposeAll` |
| Entities.World.DisposeOwnComponents | Assets/EGamePlay/Entity/Entity.cs:47-50 | appends one `Dispose` call per component, in enumeration order |
| Entities.World.EnsureEventComponent | Assets/EGamePlay/Entity/Entity.cs:145-149 | reuses an existing event component and changes nothing; otherwise adds exactly one, so the entity never holds two; single parentage, when it holds before, still holds after |
| Entities.World.Publish | Assets/EGamePlay/Entity/Entity.cs:143-152 | reuses an existing event component and changes no state but the trace; otherwise adds exactly one fresh event component owned by the entity to its table and to the global set, with no other entity or component changed; forwards the event to it and returns the event; single parentage, when it holds before, still holds after |
| Entities.World.Subscribe | Assets/EGamePlay/Entity/Entity.cs:154-162 | reuses an existing event component and changes no state but the trace; otherwise adds exactly one fresh event component owned by the entity to its table and to the global set, with no other entity or component changed; registers the handler with it; single parentage, when it holds before, still holds after |
| Entities.World.UnSubscribe | Assets/EGamePlay/Entity/Entity.cs:164-171 | never creates the event component; forwards to it iff it exists; no state other than the call trace changes |
| Int32Text.Wrap32 | Assets/EGamePlay/Combat/CombatAction/DamageOperation.cs:33 | unchecked 32-bit arithmetic: the result is congruent to the exact value modulo 2^32 and equals it when it fits |
| Int32Text.ParseInt32 | Assets/EGamePlay/Combat/CombatAction/DamageOperation.cs:38 | `int.Parse` fails with the null-argument error exactly when the expression is null |
| Int32Text.ParseFormatRoundTrip | Assets/EGamePlay/Combat/CombatAction/DamageOperation.cs:38 | parsing the decimal text of any integer returns it when it fits in 32 bits and reports overflow otherwise |
| Int32Text.FormatParseRoundTrip | Assets/EGamePlay/Combat/CombatAction/DamageOperation.cs:38 | a canonical decimal text that parses is the text of the parsed value |
| Int32Text.ParseIgnoresSurroundingWhite | Assets/EGamePlay/Combat/CombatAction/DamageOperation.cs:38 | leading and trailing white space do not change the parse |
| Int32Text.ParseAcceptsExamples | Assets/EGamePlay/Combat/CombatAction/DamageOperation.cs:38 | " -42\t" parses to -42 and "+7" to 7 |
| Int32Text.ParseRejectsExamples | Assets/EGamePlay/Combat/CombatAction/DamageOperation.cs:38 | empty, all-white, sign-only, inner-space and trailing-letter texts are format errors; null is the null-argument error |
| Int32Text.DigitsRoundTrip | Assets/EGamePlay/Combat/CombatAction/DamageOperation.cs:38 | the decimal digits of a natural number read back as that number |
| Int32Text.CanonicalDigits | Assets/EGamePlay/Combat/CombatAction/DamageOperation.cs:38 | a digit string without leading zeros is the decimal text of its value |
| DamageOperations.DamageSource.Code | Assets/EGamePlay/Combat/CombatAction/DamageOperation.cs:56-61 | the enum values lie between 1 and 3 |
| DamageOperations.SourceCodes | Assets/EGamePlay/Combat/CombatAction/DamageOperation.cs:56-61 | Attack is 1, Skill is 2 and Buff is 3, and distinct sources have distinct values |
| DamageOperations.AttackBase | Assets/EGamePlay/Combat/CombatAction/DamageOperation.cs:33 | the attack base is at least 1, and is `max(1, atk - def)` whenever the subtraction does not overflow |
| DamageOperations.CriticalValue | Assets/EGamePlay/Combat/CombatAction/DamageOperation.cs:34 | the critical value is one and a half times the base, truncated |
| DamageOperations.BeforeDamageEffect | Assets/EGamePlay/Combat/CombatAction/DamageOperation.cs:28-40 | the source, damage type and `CanCritical` never change, and only a Skill can fail |
| DamageOperations.AttackAtLeastOne | Assets/EGamePlay/Combat/CombatAction/DamageOperation.cs:32-34 | an Attack never fails, sets `IsCritical` to the roll, and deals at least 1 whether critical or not |
| DamageOperations.AttackPlainValue | Assets/EGamePlay/Combat/CombatAction/DamageOperation.cs:33 | a non-critical Attack deals `max(1, atk - def)` |
| DamageOperations.AttackCriticalValue | Assets/EGamePlay/Combat/CombatAction/DamageOperation.cs:33-34 | a critical Attack deals the plain value times 1.5, truncated, and never less than the plain value |
| DamageOperations.AttackExamples | Assets/EGamePlay/Combat/CombatAction/DamageOperation.cs:33-34 | 100 against 30 gives 70, 10 against 50 gives 1, and a critical 100 against 30 gives 105 |
| DamageOperations.AttackWrapExample | Assets/EGamePlay/Combat/CombatAction/DamageOperation.cs:33 | `int.MaxValue` against -1 wraps to `int.MinValue`, which the clamp turns into 1 |
| DamageOperations.SkillParsesExpression | Assets/EGamePlay/Combat/CombatAction/DamageOperation.cs:36-39 | a Skill's value is the parse of its expression, independent of both combatants and the roll; a parse failure is the result's failure; `IsCritical` is kept |
| DamageOperations.BuffKeepsValue | Assets/EGamePlay/Combat/CombatAction/DamageOperation.cs:28-40 | a Buff leaves the value and `IsCritical` exactly as the caller set them |
| DamageOperations.CanCriticalNotConsulted | Assets/EGamePlay/Combat/CombatAction/DamageOperation.cs:25-35 | changing `CanCritical` changes nothing else in the outcome |
| DamageOperations.DamageCalls | Assets/EGamePlay/Combat/CombatAction/DamageOperation.cs:44-52 | the three calls made after the value is computed each carry the same operation |
| DamageOperations.DamageOperation.constructor | Assets/EGamePlay/Combat/CombatAction/DamageOperation.cs:15-25 | the properties are as the caller set them, with no calls made yet |
| DamageOperations.DamageOperation.BeforeDamage | Assets/EGamePlay/Combat/CombatAction/DamageOperation.cs:28-40 | the properties become those of `BeforeDamageEffect`; a failing parse fails and leaves every property as it was |
| DamageOperations.DamageOperation.ApplyDamage | Assets/EGamePlay/Combat/CombatAction/DamageOperation.cs:42-47 | computes the value, then calls, in order, `Target.ReceiveDamage`, `Creator.TriggerAction(CauseDamage)` and `Target.TriggerAction(ReceiveDamage)`, all with the final operation; a parse failure propagates before any call |
| DamageOperations.DamageOperation.AfterDamage | Assets/EGamePlay/Combat/CombatAction/DamageOperation.cs:49-53 | the creator's `CauseDamage` reaction, then the target's `ReceiveDamage` reaction |

## Left out

- Unity `GameObject` creation and destruction, transform parenting, and `Log.Debug` (Entity.cs lines 10, 24, 40, 54, 80, 116, 129) are left out: they are engine calls and I/O with no effect on the modelled state.
- The empty virtual hooks `Awake`, `OnDestroy` and `OnSetParent` are left out: they do nothing in this class.
- `Component.Setup`, `Component.Dispose` and the `EventComponent` methods are only recorded in the trace: their bodies are not part of this model. They are assumed not to call back into the entity.
- `GetParent<T>` is not modelled: its `as T` downcast needs a subtype relation that the kind tags do not carry.
- The `EntityFactory` that creates entities and assigns their `Id` is not part of this model. `Entities.World.CreateEntity` stands in for it and takes a non-zero `Id`.
- The enumeration order of `Components.Values` is modelled as insertion order with removed kinds dropped. The .NET dictionary's reuse of freed slots, which can put a later insertion earlier, is not modelled.
- Entities.World.Dispose: requires that no entity below is reached twice along one chain of child links. The source recurses forever on a cycle. Shared children that are not cycles are allowed.
- Entities.World.Dispose: does not promise consistent parent links afterwards. As in the source, the children of a disposed entity keep pointing at it, and its own parent still lists it.
- Entities.World.AddChild: a null child is not modelled. The source appends null to `Children` and then throws at `child.GetType()`, leaving `Children` and `Type2Children` out of step.
- Entities.World.RemoveChild: a null child is not modelled. The source removes a null listing and then throws.
- Entities.World.AddChild: the single-parentage guarantee is stated only for a child without a parent, because the source does not detach a child from a previous parent here (`SetParent` does).
- Entities.World.RemoveComponent: keeps the removed component's entry in the component table, with its disposed flag false, and keeps it in `AllComponents`. This assumes that `Component.Dispose`, which is not part of this model, changes neither its `IsDispose` flag nor the global set.
- Entities.World.Dispose: makes the same assumption about every component it disposes: their entries and the global set are unchanged.
- Entities.World.Subscribe: returns nothing. The `EventSubscribe<T>` handle that the source returns comes from `EventComponent.Subscribe`, which is not part of this model.
- DamageOperations.DamageSource: has exactly the three named values. A C# enum variable can hold any integer; one outside 1..3, such as the default 0, takes the Buff path through `BeforeDamage` and is not modelled.
- DamageOperations.DamageOperation.ApplyDamage: a null `Creator` or `Target` is not modelled, because `Combatant` is a value. In the source, an Attack with either one null throws at lines 32-33, and a null `Target` throws for every source at line 45. For a Skill or Buff with a null `Creator`, `Target.ReceiveDamage` has already run at line 45 when line 51 throws, so some calls are made before the failure.
- `RandomHelper.RandomRate()` and the single-precision comparison with `CriticalProb_F` are replaced by the boolean input `critRoll`.
- `NumericBox` storage is replaced by the `Combatant` values' attack and defense fields.
- DamageOperations.CriticalValue: requires a base of at most 2^22, where `base * 1.5f` is exact in single precision. Larger bases, where the float product rounds, are not modelled.
- DamageOperations.BeforeDamageEffect: requires the same bound on a critical Attack's base.
- DamageOperations.DamageOperation.BeforeDamage: requires the same bound on a critical Attack's base.
- DamageOperations.DamageOperation.ApplyDamage: requires the same bound on a critical Attack's base.
- `Target.ReceiveDamage` and `TriggerAction` are recorded in the trace only, and are assumed not to change the operation: their bodies are not part of this model.
- `int.Parse` is modelled for the invariant culture only, with the signs '+' and '-' and the ASCII digits. Culture-specific signs, trailing NUL characters and the other number styles are not modelled.
