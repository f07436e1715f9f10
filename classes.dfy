/** The engine's class hierarchy and the run-time type test `dynamic_cast<C*>`.

    Object is the root; Actor and Component derive from Object; ObjectComponent and
    ActorComponent derive from Component. Component is abstract (its Attach and Detach
    are pure virtual), so no entity is ever of that exact class.
 */
module Classes {

  datatype Option<T> = None | Some(value: T)

  datatype Class = Object | Actor | Component | ObjectComponent | ActorComponent

  /** The direct base class, if any. */
  function Base(c: Class): Option<Class> {
    match c
    case Object => None
    case Actor => Some(Object)
    case Component => Some(Object)
    case ObjectComponent => Some(Component)
    case ActorComponent => Some(Component)
  }

  /** Number of inheritance steps from `c` up to Object. */
  function Depth(c: Class): nat {
    match c
    case Object => 0
    case Actor => 1
    case Component => 1
    case ObjectComponent => 2
    case ActorComponent => 2
  }

  lemma BaseIsShallower(c: Class)
    requires Base(c).Some?
    ensures Depth(Base(c).value) + 1 == Depth(c)
  {
  }

  /** `IsA(d, c)`: an entity whose dynamic class is `d` passes `dynamic_cast<c*>`, that is,
      `d` is `c` or derives from it. */
  predicate IsA(d: Class, c: Class)
    decreases Depth(d)
  {
    d == c || (Base(d).Some? && (BaseIsShallower(d); IsA(Base(d).value, c)))
  }

  /** Classes an entity can have at run time: every class but the abstract Component. */
  predicate IsConcrete(c: Class) {
    c != Component
  }

  /** The classes `C` accepted by `type_assert(Component, C, ...)`. */
  predicate IsComponentClass(c: Class) {
    IsA(c, Component)
  }

  /** The classes that `AddComponentOfClass<C>` can instantiate. */
  predicate IsConcreteComponent(c: Class) {
    IsConcrete(c) && IsComponentClass(c)
  }

  lemma {:induction false} IsATransitive(a: Class, b: Class, c: Class)
    requires IsA(a, b) && IsA(b, c)
    ensures IsA(a, c)
    decreases Depth(a)
  {
    if a != b {
      BaseIsShallower(a);
      IsATransitive(Base(a).value, b, c);
    }
  }

  lemma {:induction false} IsADeepens(d: Class, c: Class)
    requires IsA(d, c)
    ensures Depth(c) <= Depth(d)
    ensures Depth(c) == Depth(d) ==> d == c
    decreases Depth(d)
  {
    if d != c {
      BaseIsShallower(d);
      IsADeepens(Base(d).value, c);
    }
  }

  /** The subclass relation is a partial order: no two distinct classes derive from each other. */
  lemma IsAAntisymmetric(a: Class, b: Class)
    requires IsA(a, b) && IsA(b, a)
    ensures a == b
  {
    IsADeepens(a, b);
    IsADeepens(b, a);
  }

  /** Every class is an Object: in particular every component is an Object, and can own
      components of its own. */
  lemma {:induction false} EveryClassIsObject(c: Class)
    ensures IsA(c, Object)
    decreases Depth(c)
  {
    if c != Object {
      BaseIsShallower(c);
      EveryClassIsObject(Base(c).value);
    }
  }

  /** The concrete component classes are leaves: for an entity, matching one of them by
      `dynamic_cast` is the same as having exactly that class. */
  lemma ConcreteComponentIsLeaf(d: Class, c: Class)
    requires IsConcrete(d) && IsConcreteComponent(c)
    ensures IsA(d, c) <==> d == c
  {
  }

  /** Actor and Component are unrelated: no entity passes both casts. */
  lemma ActorIsNotComponent(d: Class)
    ensures !(IsA(d, Actor) && IsA(d, Component))
  {
  }
}
