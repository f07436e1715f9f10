/** Objects and their components, as state that the engine updates in place.

    `Arena` holds every entity the program has created: the class `Object` with its
    `Components` list and `bShouldTick` flag, and each component's `Parent` back-reference.
    An entity id stands for the `shared_ptr` that owns it and for every `weak_ptr` to it;
    `GetSelf()` is the entity's own id. Ids are handed out in increasing order and never
    reused, so a weak reference to a destroyed entity stays dead.

    `ticked` is the log of `tick` calls, one id per call, in call order: the observable
    effect of a tick once the actor's floating-point motion step is set aside.
 */
module Engine {
  import opened Classes
  import opened Attachment
  import opened Ownership

  class Arena {
    var nodes: map<Id, Node>
    var live: set<Id>
    var next: Id
    var ticked: seq<Id>

    function Snapshot(): Graph
      reads this`nodes, this`live, this`next
    {
      Graph(nodes, live, next)
    }

    ghost predicate Valid()
      reads this`nodes, this`live, this`next
    {
      Ownership.Valid(Snapshot())
    }

    constructor ()
      ensures Valid()
      ensures nodes == map[] && live == {} && next == 0 && ticked == []
    {
      nodes, live, next, ticked := map[], {}, 0, [];
    }

    /** `MakePointer<C>()`: a new, unattached entity of class `cls` with no components. */
    method NewObject(cls: Class) returns (id: Id)
      requires Valid() && IsConcrete(cls)
      modifies this`nodes, this`live, this`next
      ensures Valid()
      ensures id == old(next) && id !in old(nodes) && next == old(next) + 1
      ensures nodes == old(nodes)[id := Node(cls, true, [], None)] && live == old(live) + {id}
    {
      id := next;
      AllocKeepsValid(Snapshot(), cls);
      nodes, live, next := nodes[id := Node(cls, true, [], None)], live + {id}, next + 1;
    }

    // ----------------------------------------------------------------------------------
    // The attach/detach protocol, applied to component `c`
    // ----------------------------------------------------------------------------------

    /** `ObjectComponent::Detach`, `ActorComponent::Detach` and
        `ObjectComponent::DetachFromParent`: clear the back-reference. Only Object may call
        it, because on a component that is still held in a list it breaks the invariant
        until the list lets go of the component. */
    method Detach(c: Id)
      requires Valid() && c in live && IsComponentClass(nodes[c].cls)
      modifies this`nodes
      ensures nodes == old(nodes)[c := old(nodes[c]).(parent := None)]
      ensures !old(IsOwned(Snapshot(), c)) ==> Valid()
    {
      if !IsOwned(Snapshot(), c) {
        ReparentKeepsValid(Snapshot(), c, None);
      }
      nodes := nodes[c := nodes[c].(parent := None)];
    }

    /** `ObjectComponent::Attach` (the version `AddComponentOfClass` calls). */
    method ObjectComponentAttach(c: Id, owner: Id) returns (ok: bool)
      requires Valid() && c in live && nodes[c].cls == ObjectComponent && owner in live
      modifies this`nodes
      ensures Valid()
      ensures var r := Attachment.ObjectComponentAttach(old(nodes[c].parent), live, owner);
        ok == r.accepted && nodes == old(nodes)[c := old(nodes[c]).(parent := r.parent)]
    {
      if Lock(nodes[c].parent, live).Some? {
        return false;
      }
      if IsOwned(Snapshot(), c) {
        OwnedIsAttached(Snapshot(), c);
      }
      ReparentKeepsValid(Snapshot(), c, Some(owner));
      nodes := nodes[c := nodes[c].(parent := Some(owner))];
      return true;
    }

    /** `ActorComponent::Attach` (the version `AddComponentOfClass` calls). It overwrites the
        back-reference of a component that is already held, so the invariant survives
        only when the component was not held or is re-attached to its holder. */
    method ActorComponentAttach(c: Id, owner: Id) returns (ok: bool)
      requires Valid() && c in live && nodes[c].cls == ActorComponent && owner in live
      modifies this`nodes
      ensures var r := Attachment.ActorComponentAttach(old(nodes[c].parent), live, owner, old(nodes[owner].cls));
        ok == r.accepted && nodes == old(nodes)[c := old(nodes[c]).(parent := r.parent)]
      ensures !old(IsOwned(Snapshot(), c)) || old(nodes[c].parent) == Some(owner) ==> Valid()
    {
      if !IsA(nodes[owner].cls, Actor) {
        return false;
      }
      if !IsOwned(Snapshot(), c) || nodes[c].parent == Some(owner) {
        ReparentKeepsValid(Snapshot(), c, Some(owner));
      }
      nodes := nodes[c := nodes[c].(parent := Some(owner))];
      ok := Lock(nodes[c].parent, live).Some?;
    }

    /** The virtual call `comp->Attach(owner)`: the version of the component's own class. */
    method Attach(c: Id, owner: Id) returns (ok: bool)
      requires Valid() && c in live && IsConcreteComponent(nodes[c].cls) && owner in live
      requires !IsOwned(Snapshot(), c)
      modifies this`nodes
      ensures Valid()
      ensures var r := Attachment.Attach(old(nodes[c].cls), old(nodes[c].parent), live, owner, old(nodes[owner].cls));
        ok == r.accepted && nodes == old(nodes)[c := old(nodes[c]).(parent := r.parent)]
    {
      if nodes[c].cls == ObjectComponent {
        ok := ObjectComponentAttach(c, owner);
      } else {
        ok := ActorComponentAttach(c, owner);
      }
    }

    /** `ObjectComponent::AttachTo`. */
    method ObjectComponentAttachTo(c: Id, owner: Id) returns (ok: bool)
      requires Valid() && c in live && nodes[c].cls == ObjectComponent && owner in live
      modifies this`nodes
      ensures Valid()
      ensures var r := Attachment.ObjectComponentAttachTo(old(nodes[c].parent), live, owner);
        ok == r.accepted && nodes == old(nodes)[c := old(nodes[c]).(parent := r.parent)]
    {
      if GetParent(nodes[c].parent, live) != None && !IsAttachedTo(nodes[c].parent, live, owner) {
        return false;
      }
      if IsAttachedTo(nodes[c].parent, live, owner) {
        assert nodes == nodes[c := nodes[c]];
        return true;
      }
      if IsOwned(Snapshot(), c) {
        OwnedIsAttached(Snapshot(), c);
      }
      ReparentKeepsValid(Snapshot(), c, Some(owner));
      nodes := nodes[c := nodes[c].(parent := Some(owner))];
      return true;
    }

    /** `ActorComponent::AttachTo`. */
    method ActorComponentAttachTo(c: Id, owner: Id) returns (ok: bool)
      requires Valid() && c in live && nodes[c].cls == ActorComponent && owner in live
      modifies this`nodes
      ensures Valid()
      ensures var r := Attachment.ActorComponentAttachTo(old(nodes[c].parent), live, owner, old(nodes[owner].cls));
        ok == r.accepted && nodes == old(nodes)[c := old(nodes[c]).(parent := r.parent)]
    {
      if !IsA(nodes[owner].cls, Actor) {
        assert nodes == nodes[c := nodes[c]];
        return false;
      }
      if GetParent(nodes[c].parent, live) != None && !IsAttachedTo(nodes[c].parent, live, owner) {
        return false;
      }
      if IsAttachedTo(nodes[c].parent, live, owner) {
        assert nodes == nodes[c := nodes[c]];
        return true;
      }
      if IsOwned(Snapshot(), c) {
        OwnedIsAttached(Snapshot(), c);
      }
      ReparentKeepsValid(Snapshot(), c, Some(owner));
      nodes := nodes[c := nodes[c].(parent := Some(owner))];
      return true;
    }

    // ----------------------------------------------------------------------------------
    // Object's component operations
    // ----------------------------------------------------------------------------------

    /** `Object::HasComponentOfClass<C>`: some component of `o` passes `dynamic_cast<C*>`. */
    method HasComponentOfClass(o: Id, c: Class) returns (b: bool)
      requires Valid() && o in live && IsComponentClass(c)
      ensures forall k :: 0 <= k < |nodes[o].components| ==> nodes[o].components[k] in nodes
      ensures b <==> exists k :: 0 <= k < |nodes[o].components| && IsA(nodes[nodes[o].components[k]].cls, c)
      ensures b <==> FirstMatch(nodes, nodes[o].components, c).Some?
    {
      var cs := nodes[o].components;
      assert forall k :: 0 <= k < |cs| ==> HeldBy(Snapshot(), o, cs[k]);
      for i := 0 to |cs|
        invariant forall j :: 0 <= j < i ==> !IsA(nodes[cs[j]].cls, c)
      {
        if IsA(nodes[cs[i]].cls, c) {
          return true;
        }
      }
      return false;
    }

    /** `Object::GetComponentOfClass<C>`: a weak reference to the first component of `o`
        that passes `dynamic_cast<C*>`, or the empty reference. */
    method GetComponentOfClass(o: Id, c: Class) returns (r: Option<Id>)
      requires Valid() && o in live && IsComponentClass(c)
      ensures forall k :: 0 <= k < |nodes[o].components| ==> nodes[o].components[k] in nodes
      ensures r.None? <==> FirstMatch(nodes, nodes[o].components, c).None?
      ensures r.Some? ==> r.value == nodes[o].components[FirstMatch(nodes, nodes[o].components, c).value]
      ensures r.Some? ==> Lock(r, live) == r && IsA(nodes[r.value].cls, c) && nodes[r.value].parent == Some(o)
    {
      var cs := nodes[o].components;
      assert forall k :: 0 <= k < |cs| ==> HeldBy(Snapshot(), o, cs[k]);
      for i := 0 to |cs|
        invariant forall j :: 0 <= j < i ==> !IsA(nodes[cs[j]].cls, c)
      {
        if IsA(nodes[cs[i]].cls, c) {
          return Some(cs[i]);
        }
      }
      return None;
    }

    /** `Object::AddComponentOfClass<C>`, both overloads: refuse a class already present;
        otherwise construct a `C`, attach it to this object, and keep it only if it accepted. */
    method AddComponentOfClass(o: Id, c: Class) returns (ok: bool)
      requires Valid() && o in live && IsConcreteComponent(c)
      modifies this`nodes, this`live, this`next
      ensures Valid()
      ensures forall k :: 0 <= k < |old(nodes[o].components)| ==> old(nodes[o].components)[k] in old(nodes)
      ensures ok <==> FirstMatch(old(nodes), old(nodes[o].components), c).None? &&
                      (c == ObjectComponent || IsA(old(nodes[o].cls), Actor))
      ensures ok ==>
        next == old(next) + 1 && live == old(live) + {old(next)} &&
        nodes == old(nodes)[old(next) := Node(c, true, [], Some(o))]
                           [o := old(nodes[o]).(components := old(nodes[o].components) + [old(next)])]
      ensures FirstMatch(old(nodes), old(nodes[o].components), c).Some? ==>
        nodes == old(nodes) && live == old(live) && next == old(next)
      ensures FirstMatch(old(nodes), old(nodes[o].components), c).None? && !ok ==>
        next == old(next) + 1 && live == old(live) && old(next) !in old(nodes) &&
        nodes == old(nodes)[old(next) := Node(c, true, [], None)]
    {
      var has := HasComponentOfClass(o, c);
      if has {
        return false;
      }
      var comp := NewObject(c);
      FreshAttach(c, live, o, nodes[o].cls);
      var attached := Attach(comp, o);
      if !attached {
        DiscardKeepsValid(Snapshot(), comp);
        live := live - {comp};
        return false;
      }
      assert nodes == old(nodes)[comp := Node(c, true, [], Some(o))];
      ghost var g := Snapshot();
      nodes := nodes[o := nodes[o].(components := nodes[o].components + [comp])];
      AddKeepsValid(g, o, comp);
      return true;
    }

    /** The body of the match in `RemoveComponentOfClass<C>`: component `i` of `o` is
        detached, then erased from the list, which destroys it with all it owns. */
    method DetachAndErase(o: Id, i: nat)
      requires Valid() && o in live && i < |nodes[o].components|
      modifies this`nodes, this`live
      ensures Valid()
      ensures Snapshot() == RemoveAt(old(Snapshot()), o, i, None)
    {
      ghost var g := Snapshot();
      RemovePreservesValid(g, o, i, None);
      var victim := nodes[o].components[i];
      var dying := Elements(Preorder(Snapshot(), victim));
      Detach(victim);
      nodes := nodes[o := nodes[o].(components := Erase(nodes[o].components, i))];
      live := live - dying;
      assert Snapshot() == RemoveAt(g, o, i, None);
    }

    /** `Object::RemoveComponentOfClass<C>`: the first component of `o` that passes
        `dynamic_cast<C*>` is detached, erased from the list and destroyed with all it owns;
        nothing happens if none passes. */
    method RemoveComponentOfClass(o: Id, c: Class)
      requires Valid() && o in live && IsComponentClass(c)
      modifies this`nodes, this`live
      ensures Valid()
      ensures forall k :: 0 <= k < |old(nodes[o].components)| ==> old(nodes[o].components)[k] in old(nodes)
      ensures var m := FirstMatch(old(nodes), old(nodes[o].components), c);
        (m.None? ==> nodes == old(nodes) && live == old(live)) &&
        (m.Some? ==> Snapshot() == RemoveAt(old(Snapshot()), o, m.value, None))
    {
      var cs := nodes[o].components;
      assert forall k :: 0 <= k < |cs| ==> HeldBy(Snapshot(), o, cs[k]);
      for i := 0 to |cs|
        invariant forall j :: 0 <= j < i ==> !IsA(nodes[cs[j]].cls, c)
      {
        if IsA(nodes[cs[i]].cls, c) {
          assert FirstMatch(nodes, cs, c) == Some(i);
          DetachAndErase(o, i);
          return;
        }
      }
    }

    /** `Object::tick`: the tick of `o` runs, then each component of `o` ticks in list order
        (and through them everything `o` owns). `bShouldTick` is not consulted. */
    method Tick(o: Id)
      requires Valid() && o in live
      modifies this`ticked
      ensures ticked == old(ticked) + Preorder(Snapshot(), o)
      decreases next - o
    {
      ticked := ticked + [o];
      ghost var g := Snapshot();
      var cs := nodes[o].components;
      assert forall k :: 0 <= k < |cs| ==> HeldBy(g, o, cs[k]);
      for i := 0 to |cs|
        invariant Snapshot() == g
        invariant ticked == old(ticked) + [o] + PreorderAll(g, o, cs[..i])
      {
        assert HeldBy(g, o, cs[i]);
        Tick(cs[i]);
        PreorderAllSnoc(g, o, cs, i);
      }
      assert cs[..|cs|] == cs;
    }

    // ----------------------------------------------------------------------------------
    // The draft definitions of object.cpp
    // ----------------------------------------------------------------------------------

    /** Draft `Object::HasComponentOfClass<C>`: answers true whatever `o` holds. */
    method DraftHasComponentOfClass(o: Id, c: Class) returns (b: bool)
      requires IsComponentClass(c)
      ensures b
    {
      return true;
    }

    /** Draft `Object::AddComponentOfClass<C>`: fails whenever the draft
        `HasComponentOfClass` answers true, which is always, and otherwise adds nothing. */
    method DraftAddComponentOfClass(o: Id, c: Class) returns (ok: bool)
      requires IsComponentClass(c)
      ensures !ok
    {
      var has := DraftHasComponentOfClass(o, c);
      if has {
        return false;
      }
      return true;
    }

    /** The body of the match in the draft `RemoveComponentOfClass<C>`: component `i` of
        `o` is erased from the list without `Detach`, which destroys it with all it owns. */
    method EraseAt(o: Id, i: nat)
      requires Valid() && o in live && i < |nodes[o].components|
      modifies this`nodes, this`live
      ensures Valid()
      ensures Snapshot() == RemoveAt(old(Snapshot()), o, i, old(nodes[nodes[o].components[i]].parent))
      ensures forall x :: x in old(nodes) ==> x in nodes && nodes[x].parent == old(nodes[x].parent)
    {
      ghost var g := Snapshot();
      var victim := nodes[o].components[i];
      RemovePreservesValid(g, o, i, g.nodes[victim].parent);
      assert g.nodes == g.nodes[victim := g.nodes[victim].(parent := g.nodes[victim].parent)];
      var dying := Elements(Preorder(Snapshot(), victim));
      nodes := nodes[o := nodes[o].(components := Erase(nodes[o].components, i))];
      live := live - dying;
      assert Snapshot() == RemoveAt(g, o, i, g.nodes[victim].parent);
    }

    /** Draft `Object::RemoveComponentOfClass<C>`: erases the first component of `o` that
        passes `dynamic_cast<C*>` (destroying it with all it owns) without detaching it. */
    method DraftRemoveComponentOfClass(o: Id, c: Class)
      requires Valid() && o in live && IsComponentClass(c)
      modifies this`nodes, this`live
      ensures Valid()
      ensures forall k :: 0 <= k < |old(nodes[o].components)| ==> old(nodes[o].components)[k] in old(nodes)
      ensures var m := FirstMatch(old(nodes), old(nodes[o].components), c);
        (m.None? ==> nodes == old(nodes) && live == old(live)) &&
        (m.Some? ==> Snapshot() == RemoveAt(old(Snapshot()), o, m.value,
                                            old(nodes[nodes[o].components[m.value]].parent)))
      ensures forall x :: x in old(nodes) ==> x in nodes && nodes[x].parent == old(nodes[x].parent)
    {
      var cs := nodes[o].components;
      assert forall k :: 0 <= k < |cs| ==> HeldBy(Snapshot(), o, cs[k]);
      for i := 0 to |cs|
        invariant forall j :: 0 <= j < i ==> !IsA(nodes[cs[j]].cls, c)
      {
        if IsA(nodes[cs[i]].cls, c) {
          assert FirstMatch(nodes, cs, c) == Some(i);
          EraseAt(o, i);
          return;
        }
      }
    }
  }
}
