/** Uses of the engine that exercise the promises of the component framework, proved from
    the operations' contracts alone. */
module Scenarios {
  import opened Classes
  import opened Attachment
  import opened Ownership
  import opened Engine

  /** The check in main.cpp: on a plain Object, adding an ObjectComponent succeeds and can
      be fetched back alive; adding an ActorComponent afterwards fails, and the object still
      has no ActorComponent. */
  method PlainObjectTakesOnlyObjectComponent() returns (objectAdded: bool, fetched: Option<Id>, fetchedLocks: bool, actorAdded: bool, hasActor: bool)
    ensures objectAdded && fetched.Some? && fetchedLocks && !actorAdded && !hasActor
  {
    var a := new Arena();
    var obj := a.NewObject(Object);
    objectAdded, fetched := AddThenGet(a, obj, ObjectComponent);
    fetchedLocks := Lock(fetched, a.live).Some?;
    actorAdded, hasActor := PlainObjectRefusesActorComponent(a, obj);
  }

  /** A plain Object refuses an ActorComponent, and one it did not hold before it still
      does not hold afterwards. */
  method PlainObjectRefusesActorComponent(a: Arena, obj: Id) returns (added: bool, has: bool)
    requires a.Valid() && obj in a.live && a.nodes[obj].cls == Object
    requires forall k :: 0 <= k < |a.nodes[obj].components| ==> a.nodes[obj].components[k] in a.nodes
    requires FirstMatch(a.nodes, a.nodes[obj].components, ActorComponent).None?
    modifies a
    ensures !added && !has
  {
    ghost var cs := a.nodes[obj].components;
    added := a.AddComponentOfClass(obj, ActorComponent);
    assert a.nodes[obj].components == cs;
    assert forall j :: 0 <= j < |cs| ==> a.nodes[cs[j]].cls == old(a.nodes)[cs[j]].cls;
    has := a.HasComponentOfClass(obj, ActorComponent);
  }

  /** An Actor takes one component of each class. */
  method ActorTakesBothComponents() returns (objectAdded: bool, actorAdded: bool, count: nat)
    ensures objectAdded && actorAdded && count == 2
  {
    var a := new Arena();
    var act := a.NewObject(Actor);
    objectAdded := a.AddComponentOfClass(act, ObjectComponent);
    actorAdded := a.AddComponentOfClass(act, ActorComponent);
    count := |a.nodes[act].components|;
  }

  /** Uniqueness: a second `AddComponentOfClass<C>` fails whatever the first did, and an
      object on which the first succeeded holds exactly one component matching `C`. */
  method AddTwice(a: Arena, o: Id, c: Class) returns (first: bool, second: bool)
    requires a.Valid() && o in a.live && IsConcreteComponent(c)
    modifies a
    ensures a.Valid() && o in a.live && !second
    ensures forall k :: 0 <= k < |a.nodes[o].components| ==> a.nodes[o].components[k] in a.nodes
    ensures first ==> MatchCount(a.nodes, a.nodes[o].components, c) == 1
  {
    first := a.AddComponentOfClass(o, c);
    ghost var cs := a.nodes[o].components;
    if first {
      assert a.nodes[cs[|cs| - 1]].cls == c;
      assert FirstMatch(a.nodes, cs, c).Some?;
    }
    second := a.AddComponentOfClass(o, c);
    if first {
      AtMostOneMatch(a.Snapshot(), o, c);
      MatchCountZero(a.nodes, a.nodes[o].components, c);
    }
  }

  /** Round trip, first half: after a successful add, the lookup yields the new instance. */
  method AddThenGet(a: Arena, o: Id, c: Class) returns (added: bool, h: Option<Id>)
    requires a.Valid() && o in a.live && IsConcreteComponent(c)
    requires forall k :: 0 <= k < |a.nodes[o].components| ==> a.nodes[o].components[k] in a.nodes
    requires FirstMatch(a.nodes, a.nodes[o].components, c).None?
    requires c == ObjectComponent || IsA(a.nodes[o].cls, Actor)
    modifies a
    ensures a.Valid() && o in a.live && added && h == Some(old(a.next)) && Lock(h, a.live) == h
    ensures forall k :: 0 <= k < |a.nodes[o].components| ==> a.nodes[o].components[k] in a.nodes
    ensures FirstMatch(a.nodes, a.nodes[o].components, c).Some?
    ensures h.value == a.nodes[o].components[FirstMatch(a.nodes, a.nodes[o].components, c).value]
    ensures old(a.nodes[o].components) == [] ==> a.nodes[o].components == [h.value]
    ensures a.nodes[h.value].cls == c && a.nodes[o].cls == old(a.nodes[o].cls)
  {
    ghost var cs := a.nodes[o].components;
    added := a.AddComponentOfClass(o, c);
    assert a.nodes[o].components == cs + [old(a.next)];
    assert forall j :: 0 <= j < |cs| ==> a.nodes[cs[j]].cls == old(a.nodes)[cs[j]].cls;
    assert FirstMatch(a.nodes, a.nodes[o].components, c) == Some(|cs|);
    h := a.GetComponentOfClass(o, c);
  }

  /** Round trip, second half: once the component a lookup returned is removed, the lookup
      yields the empty reference and the handle obtained before no longer locks. */
  method RemoveThenGet(a: Arena, o: Id, c: Class, h: Option<Id>) returns (after: Option<Id>)
    requires a.Valid() && o in a.live && IsConcreteComponent(c)
    requires forall k :: 0 <= k < |a.nodes[o].components| ==> a.nodes[o].components[k] in a.nodes
    requires FirstMatch(a.nodes, a.nodes[o].components, c).Some?
    requires h == Some(a.nodes[o].components[FirstMatch(a.nodes, a.nodes[o].components, c).value])
    modifies a
    ensures a.Valid() && after == None && Lock(h, a.live) == None
  {
    ghost var g := a.Snapshot();
    a.RemoveComponentOfClass(o, c);
    RemoveConcreteLeavesNone(g, o, c, None);
    SubtreeFacts(g, h.value);
    after := a.GetComponentOfClass(o, c);
  }

  /** The whole round trip: add, get, remove, get. */
  method AddGetRemoveGet(a: Arena, o: Id, c: Class) returns (added: bool, before: Option<Id>, after: Option<Id>)
    requires a.Valid() && o in a.live && IsConcreteComponent(c)
    requires forall k :: 0 <= k < |a.nodes[o].components| ==> a.nodes[o].components[k] in a.nodes
    requires FirstMatch(a.nodes, a.nodes[o].components, c).None?
    requires c == ObjectComponent || IsA(a.nodes[o].cls, Actor)
    modifies a
    ensures a.Valid() && added
    ensures before == Some(old(a.next)) && after == None
    ensures Lock(before, a.live) == None
  {
    added, before := AddThenGet(a, o, c);
    after := RemoveThenGet(a, o, c, before);
  }

  /** Removing a component destroys what that component owns: a component added to a
      component is dead once its owner is removed from the object. */
  method RemoveDestroysWhatTheComponentOwns() returns (inner: Id, innerAliveBefore: bool, innerAliveAfter: bool)
    ensures innerAliveBefore && !innerAliveAfter
  {
    var a := new Arena();
    var obj := a.NewObject(Object);
    var ok := a.AddComponentOfClass(obj, ObjectComponent);
    var outer := a.nodes[obj].components[0];
    ok := a.AddComponentOfClass(outer, ObjectComponent);
    inner := a.nodes[outer].components[0];
    innerAliveBefore := inner in a.live;
    ghost var g := a.Snapshot();
    assert Preorder(g, inner) == [inner];
    assert g.nodes[outer].components == [inner];
    assert g.nodes[outer].components[1..] == [];
    assert PreorderAll(g, outer, [inner]) == [inner];
    assert Preorder(g, outer) == [outer, inner];
    a.RemoveComponentOfClass(obj, ObjectComponent);
    innerAliveAfter := inner in a.live;
  }

  /** Tick fan-out: an object with no components ticks alone; once it holds a component
      its tick is followed by the component's. */
  method TickFansOut() returns (alone: seq<Id>, withComponent: seq<Id>, obj: Id)
    ensures alone == [obj] && withComponent == [obj, obj + 1]
  {
    var a := new Arena();
    obj := a.NewObject(Actor);
    a.Tick(obj);
    alone := a.ticked;
    var ok := a.AddComponentOfClass(obj, ObjectComponent);
    ghost var g := a.Snapshot();
    assert Preorder(g, obj + 1) == [obj + 1];
    assert g.nodes[obj].components == [obj + 1];
    assert g.nodes[obj].components[1..] == [];
    assert PreorderAll(g, obj, [obj + 1]) == [obj + 1];
    assert Preorder(g, obj) == [obj, obj + 1];
    a.Tick(obj);
    withComponent := a.ticked[|alone|..];
  }

  /** The draft `AddComponentOfClass` of object.cpp refuses the very add that the header's
      version accepts: the first ObjectComponent of a fresh Object. */
  method DraftAddRefusesFirstComponent() returns (draftAdded: bool, added: bool)
    ensures !draftAdded && added
  {
    var a := new Arena();
    var obj := a.NewObject(Object);
    draftAdded := a.DraftAddComponentOfClass(obj, ObjectComponent);
    added := a.AddComponentOfClass(obj, ObjectComponent);
  }
}
