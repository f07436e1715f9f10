# Component framework of the TerrariaButWorse engine, in Dafny

This project models the object/component framework at the core of the engine. An `Object`
holds an ordered list of components that it owns outright, and each component is itself an
`Object`. Callers add, query, fetch and remove components by class, with at most one
component per class. "By class" means matching through `dynamic_cast`, so a subclass also
matches. A component keeps only a weak, non-owning back-reference to its owner. The
component classes set and clear that reference through an attach/detach protocol, and
there are two of them: `ObjectComponent` accepts any owner, and `ActorComponent` accepts
only an `Actor`. `Object::tick` runs the tick of every component, in list order.

Modules:

- `Classes` (classes.dfy) models the class hierarchy Object, Actor, Component,
  ObjectComponent and ActorComponent. `IsA` is the run-time type test `dynamic_cast<C*>`.
- `Attachment` (attachment.dfy) gives both generations of the attach protocol as pure
  transitions of one back-reference:
  - the `Attach` of CoreEngine.h;
  - the idempotent `AttachTo` of component_framework.cpp.
  It also has lemmas comparing the two.
- `Ownership` (ownership.dfy) is the ownership graph of all entities as a value:
  - the invariant `Valid`;
  - the call order of a tick (`Preorder`);
  - the effect of erasing a component (`RemoveAt`);
  - the lemmas that every operation preserves `Valid` and that a tick runs every owned
    entity exactly once, in list order.
- `Engine` (engine.dfy) is the class `Arena`, the engine's state updated in place. Its
  methods are `Object`'s component operations, the attach methods, `tick`, and the draft
  definitions of object.cpp. Each is proved against the functions of `Ownership` and
  `Attachment`.
- `Scenarios` (scenarios.dfy) holds uses of the engine whose outcomes follow from the
  contracts alone. They include the two expectations of main.cpp, uniqueness, the
  add/get/remove round trip, and tick fan-out.

Modelling choices:

- Entities live in an arena keyed by id, together with the set of live ids. An id stands
  for the `shared_ptr` that owns the entity and for every `weak_ptr` to it.
  - `weak_ptr::lock` is `Lock`: the id if it is still live, otherwise the empty reference.
  - `GetSelf()` is the entity's own id.
  - Ids are handed out in increasing order and never reused, so a component is always
    younger than its owner. That ordering makes ownership acyclic and gives the
    recursive `tick` its termination measure.
- Erasing a component drops the list's owning pointer to it. The model takes that pointer
  to be the only one, so the component dies together with everything it owns
  (`RemoveAt`). A caller that locked a handle from `GetComponentOfClass` and kept the
  resulting `shared_ptr` would keep it alive; that case is listed under "Left out".
- Every entity is created by `MakePointer`, so `GetSelf()` always succeeds. An `Object`
  constructed directly has no owning `shared_ptr`, and `GetSelf()` would throw; that case
  is listed under "Left out".
- `GetParent()` and `IsAttachedTo(obj)` are declared in a version of the header that is not
  part of this model. They are taken as "the locked back-reference" and "the locked
  back-reference is `obj`", which is what their names and their use in `AttachTo` say.
- Six spots in the header would not compile as written. The model follows what each
  plainly intends:
  - `DynamicPointerCast<Actor, Object>(ptr)` at CoreEngine.h:162 names a function that
    EngineMemory.h does not declare. It is read as a checked downcast of the owner, which
    the line before has already shown to be an `Actor`, so the back-reference stores the
    owner;
  - `Components.erase(i)` at CoreEngine.h:220 erases element `i`;
  - `MakePointer<C>(args)` at CoreEngine.h:237 does not expand the parameter pack. The
    component is built as if by `MakePointer<C>()`, and the arguments are ignored (see
    "Left out");
  - `comp->Attach(GetSelf)` at CoreEngine.h:238 attaches to the object itself;
  - the cast at CoreEngine.h:258, hard-coded to `ObjectComponent`, becomes a reference to
    the matching component;
  - `MakeReference<C>()` at CoreEngine.h:263 has no argument, and EngineMemory.h:30-34
    declares only one-argument overloads. It is read as the empty reference, `None`, which
    is what its comment says it is for.
- object.cpp defines `HasComponentOfClass`, `AddComponentOfClass` and
  `RemoveComponentOfClass` a second time, differently from the header. These drafts are
  modelled separately as the `Draft…` methods. The rest of the model uses the header's
  definitions.
- `tick` is modelled by its observable order. `Arena.ticked` records one id per `tick`
  call. The floating-point motion step of `Actor::tick` is not modelled; it runs before
  `Object::tick` and changes nothing the framework reads.

## Model

| member | source | states |
|---|---|---|
| `Classes.IsA` | CoreEngine.h:182 | defines `dynamic_cast<C*>` on the closed hierarchy: the dynamic class is C or derives from it through `Base` |
| `Classes.IsATransitive` | CoreEngine.h:108-151 | a class derived from a class derived from C also passes the cast to C |
| `Classes.IsADeepens` | CoreEngine.h:108-151 | passing a cast to C means being C or sitting strictly deeper in the hierarchy than C |
| `Classes.IsAAntisymmetric` | CoreEngine.h:108-151 | no two distinct classes derive from each other |
| `Classes.EveryClassIsObject` | CoreEngine.h:108 | every class, components included, passes the cast to Object, so a component can own components |
| `Classes.ConcreteComponentIsLeaf` | CoreEngine.h:182 | for an entity, passing the cast to ObjectComponent or ActorComponent is having exactly that class |
| `Classes.ActorIsNotComponent` | CoreEngine.h:157 | no entity passes both the cast to Actor and the cast to Component |
| `Attachment.Lock` | CoreEngine.h:134 | locking yields the referenced id exactly when it is still live, and the empty reference otherwise |
| `Attachment.ObjectComponentAttach` | CoreEngine.h:132-140 | accepts iff the back-reference reaches no live owner; on acceptance it names the new owner, on refusal it is unchanged |
| `Attachment.ActorComponentAttach` | CoreEngine.h:155-164 | refuses a non-Actor owner and leaves the back-reference alone; for an Actor it overwrites the back-reference and accepts iff the owner is live |
| `Attachment.Attach` | CoreEngine.h:201 | the virtual call `comp->Attach(owner)` dispatched on the component's class; an acceptance always names the owner |
| `Attachment.GetParent` | component_framework.cpp:11 | the locked back-reference: the owner if it is still live, otherwise the empty reference |
| `Attachment.IsAttachedTo` | component_framework.cpp:16 | true iff the back-reference names the owner and the owner is live |
| `Attachment.ObjectComponentAttachTo` | component_framework.cpp:9-23 | accepts iff unattached or already attached to this owner; refusal and re-attachment leave the back-reference unchanged; acceptance of a live owner leaves the component attached to it |
| `Attachment.ActorComponentAttachTo` | component_framework.cpp:34-53 | a non-Actor owner is refused with nothing changed; for an Actor it accepts iff unattached or already attached to it, and then it is attached to it |
| `Attachment.AttachToIdempotent` | component_framework.cpp:16-19 | applying either AttachTo twice with the same owner gives the same outcome and back-reference as applying it once |
| `Attachment.AttachToKeepsLiveOwner` | component_framework.cpp:11-14 | AttachTo never moves a component away from a live owner |
| `Attachment.ActorComponentAttachReassigns` | CoreEngine.h:155-164 | for any component attached to a live owner and any other live Actor, the older ActorComponent::Attach accepts the Actor and the back-reference now names it |
| `Attachment.ObjectComponentAttachRefusesSameOwner` | CoreEngine.h:134-137 | for any back-reference attached to a live owner, the older ObjectComponent::Attach refuses re-attachment to that same owner, where AttachTo accepts it |
| `Attachment.PoliciesAgreeWhenUnattached` | component_framework.cpp:9-23 | on an unattached component and a live owner, Attach and AttachTo give the same outcome, for both classes |
| `Attachment.DetachThenAttach` | component_framework.cpp:25-28 | after the back-reference is cleared, every policy accepts a live owner of a class it admits and records it |
| `Attachment.FreshAttach` | CoreEngine.h:200-204 | a fresh component accepts a live owner iff it is an ObjectComponent or the owner is an Actor, and then names that owner |
| `Ownership.Valid` | CoreEngine.h:99-106 | defines the arena invariant: live ids are allocated, every component in a live list is a live component younger than its owner whose back-reference names the owner, and each live list is unique by class |
| `Ownership.Erase` | CoreEngine.h:220 | erasing index i drops exactly element i and keeps the others in order |
| `Ownership.FirstMatch` | CoreEngine.h:215-218 | the index found passes the cast and no earlier element does; none is found iff no element passes |
| `Ownership.AtMostOneMatch` | CoreEngine.h:195-198 | in a valid arena a live entity holds at most one component matching a concrete component class |
| `Ownership.AllocKeepsValid` | CoreEngine.h:200 | constructing a fresh entity keeps the arena valid, and nothing holds the new entity |
| `Ownership.DiscardKeepsValid` | CoreEngine.h:201-204 | dropping a refused, unheld component keeps the arena valid |
| `Ownership.AddKeepsValid` | CoreEngine.h:205 | appending an attached component of a new class to its owner's list keeps the arena valid |
| `Ownership.OwnedIsAttached` | CoreEngine.h:99-106 | a component in a live list has a back-reference that locks to a live owner |
| `Ownership.ReparentKeepsValid` | CoreEngine.h:130 | setting the back-reference of an unheld component, or setting it to what it already is, keeps the arena valid |
| `Ownership.Preorder` | object.cpp:39-49 | defines the call order of `tick` on `x`: `x` itself, then for each component in list order the ticks that component runs |
| `Ownership.PreorderAll` | object.cpp:42-47 | defines the ticks run by the loop over a list of components, in list order |
| `Ownership.SubtreeFacts` | object.cpp:44-46 | everything a tick reaches is live and no older than where the tick started, and is held by an owner the tick also reaches |
| `Ownership.PreorderAllSnoc` | object.cpp:42-47 | the ticks run by the first i+1 components are those of the first i followed by those of component i |
| `Ownership.PreorderAllSplit` | object.cpp:42-47 | the ticks run by a component list split at any index into the two parts' ticks |
| `Ownership.TickOrder` | object.cpp:42-47 | component i ticks after every earlier component has finished and before any later one starts |
| `Ownership.PreorderAllMembers` | object.cpp:42-47 | an entity is ticked through a component list iff one of its components ticks it |
| `Ownership.SharedSubtreesNest` | object.cpp:44-46 | two subtrees that share an entity are nested |
| `Ownership.SiblingSubtreesDisjoint` | object.cpp:44-46 | two different components of one owner own nothing in common |
| `Ownership.TickRunsEachOnce` | object.cpp:39-49 | one tick runs no entity's tick twice, and runs the tick of each of the entity's own components |
| `Ownership.TickReachesAllOwned` | object.cpp:39-49 | whatever a tick reaches, it also reaches each of that entity's components; with `SubtreeFacts`, one tick runs exactly the entity and everything it owns at any depth |
| `Ownership.TickIgnoresShouldTick` | object.cpp:39-49 | changing bShouldTick on any entity leaves the arena valid and every tick's call sequence unchanged |
| `Ownership.RemoveAt` | CoreEngine.h:219-220 | the arena after component i is detached (or not) and erased: the owner stays live, the erased component dies, and nothing becomes live |
| `Ownership.RemoveConcreteLeavesNone` | CoreEngine.h:215-223 | after the first match of a concrete component class is removed, no component of the list matches it |
| `Ownership.RemoveKeepsHeld` | CoreEngine.h:215-223 | after a removal, every component left in a live list is live, younger than its owner and names it |
| `Ownership.EraseKeepsUnique` | CoreEngine.h:220 | erasing one element of a list unique by class leaves it unique by class |
| `Ownership.SameClassesKeepUnique` | CoreEngine.h:219 | uniqueness by class survives changes that keep every entity's class, such as `Detach` |
| `Ownership.RemoveKeepsUnique` | CoreEngine.h:215-223 | after a removal, every live list is still unique by class |
| `Ownership.RemovePreservesValid` | CoreEngine.h:215-223 | removing a component, detached or not, leaves a valid arena |
| `Engine.Arena.NewObject` | CoreEngine.h:200 | a new live entity of the given class, with no components and no back-reference, under a fresh id; nothing else changes |
| `Engine.Arena.Detach` | CoreEngine.h:130 | clears the back-reference and nothing else; the arena stays valid when no list holds the component |
| `Engine.Arena.ObjectComponentAttach` | CoreEngine.h:132-140 | the new back-reference and the result are those of Attachment.ObjectComponentAttach; the arena stays valid |
| `Engine.Arena.ActorComponentAttach` | CoreEngine.h:155-164 | the new back-reference and the result are those of Attachment.ActorComponentAttach; the arena stays valid when the component was unheld or is re-attached to its holder |
| `Engine.Arena.Attach` | CoreEngine.h:201 | the virtual call applies the policy of the component's own class to an unheld component; the arena stays valid |
| `Engine.Arena.ObjectComponentAttachTo` | component_framework.cpp:9-23 | the new back-reference and the result are those of Attachment.ObjectComponentAttachTo; the arena stays valid |
| `Engine.Arena.ActorComponentAttachTo` | component_framework.cpp:34-53 | the new back-reference and the result are those of Attachment.ActorComponentAttachTo; the arena stays valid |
| `Engine.Arena.HasComponentOfClass` | CoreEngine.h:170-188 | true iff some component in the list passes the cast, that is iff FirstMatch finds one; nothing changes |
| `Engine.Arena.GetComponentOfClass` | CoreEngine.h:248-265 | the first component that passes the cast, live and attached to this object, or the empty reference iff none passes |
| `Engine.Arena.AddComponentOfClass` | CoreEngine.h:190-208 | succeeds iff no component matches and the fresh one accepts; on success the list gains exactly the new component at its end and it names this object; on refusal by a match nothing changes; on refusal by Attach the list is unchanged and the new component is dead; the arena stays valid |
| `Engine.Arena.RemoveComponentOfClass` | CoreEngine.h:210-224 | with no match nothing changes; otherwise the arena becomes RemoveAt of the first match with the back-reference cleared, so the others keep their order; the arena stays valid |
| `Engine.Arena.DetachAndErase` | CoreEngine.h:219-220 | detach then erase component i: the arena becomes RemoveAt with the back-reference cleared, and stays valid |
| `Engine.Arena.EraseAt` | object.cpp:33 | erase component i without detaching: the arena becomes RemoveAt with the back-reference kept, no back-reference changes, and it stays valid |
| `Engine.Arena.Tick` | object.cpp:39-49 | the tick log grows by exactly Preorder: this entity, then each component's ticks in list order |
| `Engine.Arena.DraftHasComponentOfClass` | object.cpp:3-9 | answers true whatever the list holds |
| `Engine.Arena.DraftAddComponentOfClass` | object.cpp:11-22 | always fails and changes nothing |
| `Engine.Arena.DraftRemoveComponentOfClass` | object.cpp:24-37 | like RemoveComponentOfClass, but the erased component keeps its back-reference: no back-reference changes |
| `Scenarios.PlainObjectTakesOnlyObjectComponent` | main.cpp:3-28 | on a fresh Object, adding an ObjectComponent succeeds and the fetched handle locks to a live component; adding an ActorComponent then fails |
| `Scenarios.PlainObjectRefusesActorComponent` | main.cpp:23-27 | a plain Object refuses an ActorComponent and still holds none afterwards |
| `Scenarios.ActorTakesBothComponents` | CoreEngine.h:155-164 | an Actor takes one ObjectComponent and one ActorComponent |
| `Scenarios.AddTwice` | CoreEngine.h:231-235 | a second add of the same class always fails; after a successful first add exactly one component matches |
| `Scenarios.AddThenGet` | CoreEngine.h:248-265 | after a successful add, the lookup returns the new component, and its handle locks |
| `Scenarios.RemoveThenGet` | CoreEngine.h:210-224 | after the looked-up component is removed, the lookup returns the empty reference and the old handle no longer locks |
| `Scenarios.AddGetRemoveGet` | CoreEngine.h:190-265 | add, get, remove, get: the first get yields the new component, the second yields nothing, and the handle is dead |
| `Scenarios.RemoveDestroysWhatTheComponentOwns` | CoreEngine.h:219-220 | a component owned by a removed component dies with it |
| `Scenarios.TickFansOut` | object.cpp:39-49 | an object without components ticks alone; with one component, its tick is followed by the component's |
| `Scenarios.DraftAddRefusesFirstComponent` | object.cpp:11-22 | the draft add refuses the first ObjectComponent of a fresh Object, which the header's add accepts |

## Left out

- Floating-point code is not modelled: vector arithmetic, the motion step of `Actor::tick`,
  and the cosine approximation. The framework never reads any of it. `DeltaTime` is
  dropped from `tick` for the same reason.
- Actor's `Parent` and `Children` fields are declared and never used by the core.
- The smart-pointer layer is replaced by the arena and its live set. That layer covers
  `Pointer`, `Reference`, `MakePointer` and `MakeReference`, plus a disabled custom
  collector. Destruction order inside one removal is not modelled.
- `AddComponentOfClass(Args&&...)` forwards constructor arguments, which the model has no
  use for. Otherwise both overloads are the one method. Its `debug_print` messages are
  console output and are not modelled.
- The physics collider's string channel and a tag registry are not part of this model.
- `type_assert` is a compile-time check. It becomes the `IsComponentClass` precondition of
  each operation.
- `Engine.Arena.ActorComponentAttach`: validity is promised only when the component is unheld
  or re-attached to its holder. The source overwrites the back-reference of a held
  component, which breaks ownership. `AddComponentOfClass` only ever attaches fresh
  components.
- `Engine.Arena.Detach`: validity is promised only for an unheld component. Inside
  `RemoveComponentOfClass` the list lets go of the component right after, and validity is
  proved there.
- `Scenarios.RemoveThenGet`: the old handle is dead only when no caller keeps a `shared_ptr`
  obtained by locking it; such a pointer would keep the removed component alive and the
  handle would still lock.
- `Scenarios.AddGetRemoveGet`: the same assumption as `RemoveThenGet`, that no caller keeps
  a locked `shared_ptr` to the removed component.
- `Scenarios.RemoveDestroysWhatTheComponentOwns`: assumes no caller keeps a locked
  `shared_ptr` to the removed component or to what it owns.
- `Ownership.RemoveAt`: destroys the erased component's whole subtree, which assumes the
  list held the only owning pointer to it. `Engine.Arena.RemoveComponentOfClass`,
  `Engine.Arena.DetachAndErase`, `Engine.Arena.EraseAt` and
  `Engine.Arena.DraftRemoveComponentOfClass` inherit that assumption.
- `Engine.Arena.AddComponentOfClass`: every object is taken to be owned by a `shared_ptr`
  from `MakePointer` (`NewObject`). On an `Object` built by its public constructor,
  `GetSelf()` throws `std::bad_weak_ptr`, and that error path is not modelled.
- `Classes.ConcreteComponentIsLeaf`: the hierarchy is closed at the five classes of the
  header, and user classes derived from ObjectComponent or ActorComponent are not
  modelled. With such a class, `AddComponentOfClass<Derived>` after
  `<ObjectComponent>` succeeds, and two components then match `ObjectComponent`.
  `Ownership.AtMostOneMatch` and `Ownership.RemoveConcreteLeavesNone` rely on the
  closed hierarchy too.
- `Engine.Arena.Tick`: the floating-point `DeltaTime` and per-entity effects are reduced to
  a log of which entity ticks, in order.

## Findings

| source | as written | input that shows it | evidently intended | confidence | as-written member | corrected member |
|---|---|---|---|---|---|---|
| object.cpp:3-9 | `HasComponentOfClass<C>` returns true without looking at the list, so `AddComponentOfClass<C>` (object.cpp:11-22) always fails | a fresh Object and `C` = ObjectComponent: the draft add fails, the header's add succeeds | true iff some component passes `dynamic_cast<C*>`, as the loop at CoreEngine.h:180-187 does | not executed | `Scenarios.DraftAddRefusesFirstComponent` | `Engine.Arena.HasComponentOfClass` |
