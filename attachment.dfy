/** The attach/detach protocol of components, as pure state transitions of one
    component's back-reference to its owner.

    A back-reference is a weak (non-owning) reference: an `Option<Id>` that is only usable
    while the id it names is in the set of live entities. Each policy takes the component's
    current back-reference and returns whether it accepted the owner and the new
    back-reference.

    Two generations of the protocol exist: `Attach` in CoreEngine.h, which is what
    `Object::AddComponentOfClass` calls, and the later `AttachTo` in component_framework.cpp.
 */
module Attachment {
  import opened Classes

  /** Entity ids; ids are never reused, so a stale id stays dead. */
  type Id = nat

  /** `weak_ptr::lock`: the referenced id if it is still live, otherwise the empty reference. */
  function Lock(r: Option<Id>, live: set<Id>): (l: Option<Id>)
    ensures l.Some? <==> r.Some? && r.value in live
    ensures l.Some? ==> l == r
  {
    if r.Some? && r.value in live then r else None
  }

  datatype Outcome = Outcome(accepted: bool, parent: Option<Id>)

  /** ObjectComponent::Attach (CoreEngine.h): refuses while the back-reference still
      reaches a live owner, the same owner included; otherwise records `owner`. */
  function ObjectComponentAttach(parent: Option<Id>, live: set<Id>, owner: Id): (r: Outcome)
    ensures r.accepted <==> Lock(parent, live).None?
    ensures r.accepted ==> r.parent == Some(owner)
    ensures !r.accepted ==> r.parent == parent
  {
    if Lock(parent, live).Some? then Outcome(false, parent) else Outcome(true, Some(owner))
  }

  /** ActorComponent::Attach (CoreEngine.h): refuses a non-Actor owner and leaves the
      back-reference alone; for an Actor it overwrites the back-reference without looking
      at the old one, and reports whether the new one can be locked. */
  function ActorComponentAttach(parent: Option<Id>, live: set<Id>, owner: Id, ownerClass: Class): (r: Outcome)
    ensures r.accepted <==> IsA(ownerClass, Actor) && owner in live
    ensures IsA(ownerClass, Actor) ==> r.parent == Some(owner)
    ensures !IsA(ownerClass, Actor) ==> r.parent == parent
  {
    if !IsA(ownerClass, Actor) then Outcome(false, parent)
    else Outcome(Lock(Some(owner), live).Some?, Some(owner))
  }

  /** The virtual call `comp->Attach(owner)` made by `AddComponentOfClass<C>`, dispatched on
      the component's class. */
  function Attach(c: Class, parent: Option<Id>, live: set<Id>, owner: Id, ownerClass: Class): (r: Outcome)
    requires IsConcreteComponent(c)
    ensures r.accepted ==> r.parent == Some(owner)
  {
    if c == ObjectComponent then ObjectComponentAttach(parent, live, owner)
    else ActorComponentAttach(parent, live, owner, ownerClass)
  }

  /** `GetParent()` of component_framework.cpp: the locked back-reference. */
  function GetParent(parent: Option<Id>, live: set<Id>): (p: Option<Id>)
    ensures p.Some? ==> p == parent && p.value in live
    ensures p.None? ==> parent.None? || parent.value !in live
  {
    Lock(parent, live)
  }

  /** `IsAttachedTo(obj)` of component_framework.cpp: the locked back-reference is `obj`. */
  predicate IsAttachedTo(parent: Option<Id>, live: set<Id>, owner: Id)
    ensures IsAttachedTo(parent, live, owner) <==> parent == Some(owner) && owner in live
  {
    GetParent(parent, live) == Some(owner)
  }

  /** ObjectComponent::AttachTo (component_framework.cpp): refuses an owner other than the
      live one it already has, accepts its current owner again without change, and
      otherwise records `owner`. */
  function ObjectComponentAttachTo(parent: Option<Id>, live: set<Id>, owner: Id): (r: Outcome)
    ensures r.accepted <==> GetParent(parent, live).None? || IsAttachedTo(parent, live, owner)
    ensures !r.accepted ==> r.parent == parent
    ensures IsAttachedTo(parent, live, owner) ==> r.parent == parent
    ensures r.accepted && owner in live ==> IsAttachedTo(r.parent, live, owner)
  {
    if GetParent(parent, live) != None && !IsAttachedTo(parent, live, owner) then
      Outcome(false, parent)
    else if IsAttachedTo(parent, live, owner) then
      Outcome(true, parent)
    else
      Outcome(true, Some(owner))
  }

  /** ActorComponent::AttachTo (component_framework.cpp): the Actor test comes first; an
      Actor owner then goes through the same three cases as ObjectComponent::AttachTo. */
  function ActorComponentAttachTo(parent: Option<Id>, live: set<Id>, owner: Id, ownerClass: Class): (r: Outcome)
    ensures !IsA(ownerClass, Actor) ==> r == Outcome(false, parent)
    ensures r.accepted <==>
      IsA(ownerClass, Actor) && (GetParent(parent, live).None? || IsAttachedTo(parent, live, owner))
    ensures !r.accepted ==> r.parent == parent
    ensures r.accepted && owner in live ==> IsAttachedTo(r.parent, live, owner)
  {
    if !IsA(ownerClass, Actor) then Outcome(false, parent)
    else ObjectComponentAttachTo(parent, live, owner)
  }

  /** Attaching with AttachTo twice to the same owner is the same as attaching once: the
      second call returns what the first did and leaves the back-reference as it was. */
  lemma AttachToIdempotent(parent: Option<Id>, live: set<Id>, owner: Id, ownerClass: Class)
    ensures var r := ObjectComponentAttachTo(parent, live, owner);
      ObjectComponentAttachTo(r.parent, live, owner) == r
    ensures var r := ActorComponentAttachTo(parent, live, owner, ownerClass);
      ActorComponentAttachTo(r.parent, live, owner, ownerClass) == r
  {
  }

  /** AttachTo never moves a component away from a live owner: whatever the call returns,
      a back-reference that reached a live owner still reaches it afterwards. */
  lemma AttachToKeepsLiveOwner(parent: Option<Id>, live: set<Id>, owner: Id, ownerClass: Class)
    requires GetParent(parent, live).Some?
    ensures GetParent(ObjectComponentAttachTo(parent, live, owner).parent, live) == GetParent(parent, live)
    ensures GetParent(ActorComponentAttachTo(parent, live, owner, ownerClass).parent, live) == GetParent(parent, live)
  {
  }

  /** The older ActorComponent::Attach does move a component: attached to one live owner,
      it accepts any other live Actor and its back-reference now names that one. */
  lemma ActorComponentAttachReassigns(p: Id, live: set<Id>, owner: Id, ownerClass: Class)
    requires p in live && owner in live && p != owner && IsA(ownerClass, Actor)
    ensures var r := ActorComponentAttach(Some(p), live, owner, ownerClass);
      GetParent(Some(p), live) == Some(p) && r.accepted && GetParent(r.parent, live) == Some(owner)
  {
  }

  /** The older ObjectComponent::Attach is not idempotent: a component attached to a live
      owner is refused when asked to attach to that same owner again, where AttachTo accepts. */
  lemma ObjectComponentAttachRefusesSameOwner(parent: Option<Id>, live: set<Id>, owner: Id)
    requires IsAttachedTo(parent, live, owner)
    ensures !ObjectComponentAttach(parent, live, owner).accepted
    ensures ObjectComponentAttachTo(parent, live, owner).accepted
  {
  }

  /** On a component whose back-reference reaches no live owner (a freshly constructed one,
      or one whose owner is gone) the two generations of the protocol agree, for any live owner. */
  lemma PoliciesAgreeWhenUnattached(parent: Option<Id>, live: set<Id>, owner: Id, ownerClass: Class)
    requires Lock(parent, live).None? && owner in live
    ensures ObjectComponentAttach(parent, live, owner) == ObjectComponentAttachTo(parent, live, owner)
    ensures ActorComponentAttach(parent, live, owner, ownerClass) == ActorComponentAttachTo(parent, live, owner, ownerClass)
  {
  }

  /** After `Detach` (which clears the back-reference) every policy accepts an owner of the
      class it admits: detaching returns a component to the unattached state. */
  lemma DetachThenAttach(live: set<Id>, owner: Id, ownerClass: Class)
    requires owner in live
    ensures ObjectComponentAttach(None, live, owner) == Outcome(true, Some(owner))
    ensures ObjectComponentAttachTo(None, live, owner) == Outcome(true, Some(owner))
    ensures IsA(ownerClass, Actor) ==> ActorComponentAttach(None, live, owner, ownerClass) == Outcome(true, Some(owner))
    ensures IsA(ownerClass, Actor) ==> ActorComponentAttachTo(None, live, owner, ownerClass) == Outcome(true, Some(owner))
  {
  }

  /** What `AddComponentOfClass<C>` sees when it attaches a freshly constructed `C` to a live
      owner: an ObjectComponent always accepts, an ActorComponent accepts exactly an Actor,
      and on acceptance the back-reference names the owner. */
  lemma FreshAttach(c: Class, live: set<Id>, owner: Id, ownerClass: Class)
    requires IsConcreteComponent(c) && owner in live
    ensures var r := Attach(c, None, live, owner, ownerClass);
      (r.accepted <==> c == ObjectComponent || IsA(ownerClass, Actor)) &&
      (r.accepted ==> r.parent == Some(owner)) &&
      (!r.accepted ==> r.parent == None)
  {
  }
}
