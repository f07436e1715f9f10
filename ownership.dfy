/** The ownership graph of all entities, as a value.

    Every entity (an Object, an Actor or a component) is a node of an arena keyed by id.
    A node records its dynamic class, the ordered list of components it exclusively owns
    (`Object::Components`) and, for a component, its weak back-reference to its owner
    (`ObjectComponent::Parent` / `ActorComponent::Parent`). The `live` set says which
    entities still exist; a weak reference to an id outside it locks to nothing.
 */
module Ownership {
  import opened Classes
  import opened Attachment

  /** One entity: its dynamic class, `Object::bShouldTick`, `Object::Components`, and for
      a component its back-reference `Parent` (always `None` for Objects and Actors). */
  datatype Node = Node(cls: Class, shouldTick: bool, components: seq<Id>, parent: Option<Id>)

  /** The arena: nodes by id, the live ids, and the next id to hand out. */
  datatype Graph = Graph(nodes: map<Id, Node>, live: set<Id>, next: Id)

  /** `c` sits in the component list of the live entity `o` as ownership demands: `c` is a
      live component, younger than its owner, whose back-reference names `o`. */
  ghost predicate HeldBy(g: Graph, o: Id, c: Id) {
    c in g.live && c in g.nodes && o < c && IsComponentClass(g.nodes[c].cls) &&
    g.nodes[c].parent == Some(o)
  }

  /** No two components of a list have the same class. */
  ghost predicate UniqueClasses(nodes: map<Id, Node>, cs: seq<Id>) {
    forall i, j :: 0 <= i < j < |cs| && cs[i] in nodes && cs[j] in nodes ==>
      nodes[cs[i]].cls != nodes[cs[j]].cls
  }

  /** The arena invariant. Owners are always older than what they own, so ownership has
      no cycles and `Object::tick` terminates; each live list is unique by class. */
  ghost predicate Valid(g: Graph) {
    g.live <= g.nodes.Keys &&
    (forall x :: x in g.nodes ==> x < g.next) &&
    (forall x :: x in g.live ==> IsConcrete(g.nodes[x].cls)) &&
    (forall o, k :: o in g.live && 0 <= k < |g.nodes[o].components| ==>
      HeldBy(g, o, g.nodes[o].components[k])) &&
    (forall o :: o in g.live ==> UniqueClasses(g.nodes, g.nodes[o].components))
  }

  /** `c` is in the component list of some live entity. */
  ghost predicate IsOwned(g: Graph, c: Id) {
    exists o :: o in g.live && o in g.nodes && c in g.nodes[o].components
  }

  /** The set of the elements of `s`. */
  function Elements(s: seq<Id>): set<Id> {
    set y | y in s
  }

  /** `std::vector::erase` at index `i`: the element at `i` goes, the others keep their order. */
  function Erase<T>(s: seq<T>, i: nat): (r: seq<T>)
    requires i < |s|
    ensures |r| == |s| - 1
    ensures forall j :: 0 <= j < i ==> r[j] == s[j]
    ensures forall j :: i <= j < |r| ==> r[j] == s[j + 1]
  {
    s[..i] + s[i + 1..]
  }

  /** The index of the first of `cs` that passes `dynamic_cast<c*>`, if any. */
  function FirstMatch(nodes: map<Id, Node>, cs: seq<Id>, c: Class): (r: Option<nat>)
    requires forall k :: 0 <= k < |cs| ==> cs[k] in nodes
    ensures r.Some? ==> r.value < |cs| && IsA(nodes[cs[r.value]].cls, c)
    ensures r.Some? ==> forall j :: 0 <= j < r.value ==> !IsA(nodes[cs[j]].cls, c)
    ensures r.None? <==> forall j :: 0 <= j < |cs| ==> !IsA(nodes[cs[j]].cls, c)
  {
    if cs == [] then None
    else if IsA(nodes[cs[0]].cls, c) then Some(0)
    else match FirstMatch(nodes, cs[1..], c)
      case None => None
      case Some(k) => Some(k + 1)
  }

  /** How many of `cs` pass `dynamic_cast<c*>`. */
  function MatchCount(nodes: map<Id, Node>, cs: seq<Id>, c: Class): (n: nat)
    requires forall k :: 0 <= k < |cs| ==> cs[k] in nodes
  {
    if cs == [] then 0
    else (if IsA(nodes[cs[0]].cls, c) then 1 else 0) + MatchCount(nodes, cs[1..], c)
  }

  lemma {:induction false} MatchCountZero(nodes: map<Id, Node>, cs: seq<Id>, c: Class)
    requires forall k :: 0 <= k < |cs| ==> cs[k] in nodes
    ensures MatchCount(nodes, cs, c) == 0 <==> FirstMatch(nodes, cs, c).None?
    decreases |cs|
  {
    if cs != [] {
      MatchCountZero(nodes, cs[1..], c);
    }
  }

  /** The uniqueness invariant seen through `dynamic_cast`: a live entity holds at most one
      component that matches a concrete component class. */
  lemma AtMostOneMatch(g: Graph, o: Id, c: Class)
    requires Valid(g) && o in g.live && IsConcreteComponent(c)
    ensures MatchCount(g.nodes, g.nodes[o].components, c) <= 1
  {
    var cs := g.nodes[o].components;
    forall k | 0 <= k < |cs|
      ensures IsConcrete(g.nodes[cs[k]].cls)
    {
      assert HeldBy(g, o, cs[k]);
    }
    AtMostOneMatchIn(g.nodes, cs, c);
  }

  lemma {:induction false} AtMostOneMatchIn(nodes: map<Id, Node>, cs: seq<Id>, c: Class)
    requires forall k :: 0 <= k < |cs| ==> cs[k] in nodes && IsConcrete(nodes[cs[k]].cls)
    requires UniqueClasses(nodes, cs) && IsConcreteComponent(c)
    ensures MatchCount(nodes, cs, c) <= 1
    decreases |cs|
  {
    if cs != [] {
      AtMostOneMatchIn(nodes, cs[1..], c);
      if IsA(nodes[cs[0]].cls, c) {
        ConcreteComponentIsLeaf(nodes[cs[0]].cls, c);
        forall j | 0 <= j < |cs[1..]|
          ensures !IsA(nodes[cs[1..][j]].cls, c)
        {
          assert cs[1..][j] == cs[j + 1];
          ConcreteComponentIsLeaf(nodes[cs[j + 1]].cls, c);
        }
        MatchCountZero(nodes, cs[1..], c);
      }
    }
  }

  /** Allocating a fresh entity of a concrete class, with no components and no
      back-reference, keeps the arena valid, and nothing holds the new entity. */
  lemma AllocKeepsValid(g: Graph, cls: Class)
    requires Valid(g) && IsConcrete(cls)
    ensures var g' := Graph(g.nodes[g.next := Node(cls, true, [], None)], g.live + {g.next}, g.next + 1);
      Valid(g') && !IsOwned(g', g.next)
  {
    var g' := Graph(g.nodes[g.next := Node(cls, true, [], None)], g.live + {g.next}, g.next + 1);
    forall o, k | o in g'.live && 0 <= k < |g'.nodes[o].components|
      ensures HeldBy(g', o, g'.nodes[o].components[k])
    {
      assert HeldBy(g, o, g.nodes[o].components[k]);
    }
  }

  /** Destroying an entity that nothing holds and that holds nothing keeps the arena valid. */
  lemma DiscardKeepsValid(g: Graph, x: Id)
    requires Valid(g) && x in g.nodes && !IsOwned(g, x) && g.nodes[x].components == []
    ensures Valid(Graph(g.nodes, g.live - {x}, g.next))
  {
    var g' := Graph(g.nodes, g.live - {x}, g.next);
    forall o, k | o in g'.live && 0 <= k < |g'.nodes[o].components|
      ensures HeldBy(g', o, g'.nodes[o].components[k])
    {
      assert HeldBy(g, o, g.nodes[o].components[k]);
    }
  }

  /** Appending a component `comp` attached to `o`, that nothing held and whose class no
      component of `o` has, to the list of `o` keeps the arena valid. */
  lemma AddKeepsValid(g: Graph, o: Id, comp: Id)
    requires Valid(g) && o in g.live && comp in g.live && o < comp
    requires IsConcreteComponent(g.nodes[comp].cls) && g.nodes[comp].parent == Some(o)
    requires !IsOwned(g, comp)
    requires forall k :: 0 <= k < |g.nodes[o].components| ==>
      g.nodes[g.nodes[o].components[k]].cls != g.nodes[comp].cls
    ensures Valid(Graph(g.nodes[o := g.nodes[o].(components := g.nodes[o].components + [comp])], g.live, g.next))
  {
    var cs := g.nodes[o].components;
    var g' := Graph(g.nodes[o := g.nodes[o].(components := cs + [comp])], g.live, g.next);
    forall o', k | o' in g'.live && 0 <= k < |g'.nodes[o'].components|
      ensures HeldBy(g', o', g'.nodes[o'].components[k])
    {
      if o' == o && k == |cs| {
      } else {
        assert g'.nodes[o'].components[k] == g.nodes[o'].components[k];
        assert HeldBy(g, o', g.nodes[o'].components[k]);
      }
    }
    forall o' | o' in g'.live
      ensures UniqueClasses(g'.nodes, g'.nodes[o'].components)
    {
      assert UniqueClasses(g.nodes, g.nodes[o'].components);
    }
  }

  /** A component held in a live list has a back-reference that locks to a live owner. */
  lemma OwnedIsAttached(g: Graph, c: Id)
    requires Valid(g) && IsOwned(g, c)
    ensures c in g.nodes && Lock(g.nodes[c].parent, g.live).Some?
  {
    var o :| o in g.live && o in g.nodes && c in g.nodes[o].components;
    var k :| 0 <= k < |g.nodes[o].components| && g.nodes[o].components[k] == c;
    assert HeldBy(g, o, c);
  }

  /** Changing the back-reference of a component that no live entity holds, or setting it
      to what it already is, keeps the arena valid. */
  lemma ReparentKeepsValid(g: Graph, c: Id, p: Option<Id>)
    requires Valid(g) && c in g.nodes
    requires !IsOwned(g, c) || g.nodes[c].parent == p
    ensures Valid(Graph(g.nodes[c := g.nodes[c].(parent := p)], g.live, g.next))
  {
    var g' := Graph(g.nodes[c := g.nodes[c].(parent := p)], g.live, g.next);
    forall o, k | o in g'.live && 0 <= k < |g'.nodes[o].components|
      ensures HeldBy(g', o, g'.nodes[o].components[k])
    {
      assert HeldBy(g, o, g.nodes[o].components[k]);
    }
  }

  /** The entities whose `tick` runs when `x` ticks, in call order: `x` itself, then for each
      of its components in list order everything that component's tick runs. Read as a set
      it is `x` with all it owns, directly or through its components. */
  function Preorder(g: Graph, x: Id): (r: seq<Id>)
    requires Valid(g) && x in g.live
    decreases g.next - x, 1
  {
    [x] + PreorderAll(g, x, g.nodes[x].components)
  }

  /** The ticks run for the components `cs` of `x`, in order. */
  function PreorderAll(g: Graph, x: Id, cs: seq<Id>): (r: seq<Id>)
    requires Valid(g) && x in g.live
    requires forall k :: 0 <= k < |cs| ==> HeldBy(g, x, cs[k])
    decreases g.next - x, 0, |cs|
  {
    if cs == [] then []
    else assert HeldBy(g, x, cs[0]); Preorder(g, cs[0]) + PreorderAll(g, x, cs[1..])
  }

  /** `y` names its owner through its back-reference and sits in that owner's list. */
  ghost predicate HeldByParent(g: Graph, y: Id) {
    y in g.nodes && g.nodes[y].parent.Some? && g.nodes[y].parent.value in g.nodes &&
    y in g.nodes[g.nodes[y].parent.value].components
  }

  /** Everything `x` ticks is live and no older than `x`; everything but `x` itself is held
      by an owner that `x` also ticks. */
  lemma {:induction false} SubtreeFacts(g: Graph, x: Id)
    requires Valid(g) && x in g.live
    ensures forall y :: y in Preorder(g, x) ==> y in g.live && x <= y
    ensures forall y :: y in Preorder(g, x) && y != x ==>
      HeldByParent(g, y) && g.nodes[y].parent.value in Preorder(g, x)
    decreases g.next - x, 1
  {
    SubtreeAllFacts(g, x, g.nodes[x].components);
  }

  lemma {:induction false} SubtreeAllFacts(g: Graph, x: Id, cs: seq<Id>)
    requires Valid(g) && x in g.live
    requires forall k :: 0 <= k < |cs| ==> HeldBy(g, x, cs[k]) && cs[k] in g.nodes[x].components
    ensures forall y :: y in PreorderAll(g, x, cs) ==> y in g.live && x < y
    ensures forall y :: y in PreorderAll(g, x, cs) ==>
      HeldByParent(g, y) &&
      (g.nodes[y].parent.value == x || g.nodes[y].parent.value in PreorderAll(g, x, cs))
    decreases g.next - x, 0, |cs|
  {
    if cs != [] {
      assert HeldBy(g, x, cs[0]);
      SubtreeFacts(g, cs[0]);
      SubtreeAllFacts(g, x, cs[1..]);
    }
  }

  /** The ticks run by the first `i + 1` components are those run by the first `i`
      followed by those run by component `i`: components tick in list order. */
  lemma {:induction false} PreorderAllSnoc(g: Graph, x: Id, cs: seq<Id>, i: nat)
    requires Valid(g) && x in g.live
    requires forall k :: 0 <= k < |cs| ==> HeldBy(g, x, cs[k])
    requires i < |cs|
    ensures PreorderAll(g, x, cs[..i + 1]) == PreorderAll(g, x, cs[..i]) + Preorder(g, cs[i])
    decreases i
  {
    if i == 0 {
      assert cs[..1][1..] == [];
    } else {
      assert cs[..i + 1][1..] == cs[1..][..i];
      assert cs[..i][1..] == cs[1..][..i - 1];
      PreorderAllSnoc(g, x, cs[1..], i - 1);
    }
  }

  /** The ticks run by components `cs` split at any index into those run by the
      components before it and those run from it on. */
  lemma {:induction false} PreorderAllSplit(g: Graph, x: Id, cs: seq<Id>, i: nat)
    requires Valid(g) && x in g.live
    requires forall k :: 0 <= k < |cs| ==> HeldBy(g, x, cs[k])
    requires i <= |cs|
    ensures PreorderAll(g, x, cs) == PreorderAll(g, x, cs[..i]) + PreorderAll(g, x, cs[i..])
    decreases i
  {
    if i == 0 {
      assert cs[..0] == [] && cs[0..] == cs;
    } else {
      assert cs[..i][1..] == cs[1..][..i - 1];
      assert cs[i..] == cs[1..][i - 1..];
      PreorderAllSplit(g, x, cs[1..], i - 1);
    }
  }

  /** When `x` ticks, component `i` ticks after every component before it in the list has
      finished ticking, and before any component after it starts. */
  lemma TickOrder(g: Graph, x: Id, i: nat)
    requires Valid(g) && x in g.live && i < |g.nodes[x].components|
    ensures var cs := g.nodes[x].components;
      Preorder(g, x) ==
        [x] + PreorderAll(g, x, cs[..i]) + Preorder(g, cs[i]) + PreorderAll(g, x, cs[i + 1..])
  {
    var cs := g.nodes[x].components;
    PreorderAllSplit(g, x, cs, i);
    assert cs[i..][0] == cs[i] && cs[i..][1..] == cs[i + 1..];
    assert PreorderAll(g, x, cs[i..]) == Preorder(g, cs[i]) + PreorderAll(g, x, cs[i + 1..]);
  }

  /** `y` is ticked by components `cs` exactly when one of them ticks it. */
  lemma {:induction false} PreorderAllMembers(g: Graph, x: Id, cs: seq<Id>, y: Id)
    requires Valid(g) && x in g.live
    requires forall k :: 0 <= k < |cs| ==> HeldBy(g, x, cs[k])
    ensures y in PreorderAll(g, x, cs) <==> exists k :: 0 <= k < |cs| && y in Preorder(g, cs[k])
    decreases |cs|
  {
    if cs != [] {
      assert HeldBy(g, x, cs[0]);
      PreorderAllMembers(g, x, cs[1..], y);
      if y in PreorderAll(g, x, cs[1..]) {
        var k :| 0 <= k < |cs[1..]| && y in Preorder(g, cs[1..][k]);
        assert y in Preorder(g, cs[k + 1]);
      }
      if exists k :: 0 <= k < |cs| && y in Preorder(g, cs[k]) {
        var k :| 0 <= k < |cs| && y in Preorder(g, cs[k]);
        if k > 0 {
          assert y in Preorder(g, cs[1..][k - 1]);
        }
      }
    }
  }

  /** Two subtrees that share an entity are nested: one root is inside the other's subtree. */
  lemma {:induction false} SharedSubtreesNest(g: Graph, a: Id, b: Id, y: Id)
    requires Valid(g) && a in g.live && b in g.live
    requires y in Preorder(g, a) && y in Preorder(g, b)
    ensures a in Preorder(g, b) || b in Preorder(g, a)
    decreases y
  {
    if y != a && y != b {
      SubtreeFacts(g, a);
      SubtreeFacts(g, b);
      var p := g.nodes[y].parent.value;
      var k :| 0 <= k < |g.nodes[p].components| && g.nodes[p].components[k] == y;
      assert HeldBy(g, p, y);
      SharedSubtreesNest(g, a, b, p);
    }
  }

  /** Two different components of the same owner own nothing in common. */
  lemma SiblingSubtreesDisjoint(g: Graph, x: Id, c1: Id, c2: Id, y: Id)
    requires Valid(g) && x in g.live
    requires HeldBy(g, x, c1) && HeldBy(g, x, c2) && c1 != c2
    ensures !(y in Preorder(g, c1) && y in Preorder(g, c2))
  {
    if y in Preorder(g, c1) && y in Preorder(g, c2) {
      SharedSubtreesNest(g, c1, c2, y);
      SubtreeFacts(g, c1);
      SubtreeFacts(g, c2);
      assert false;
    }
  }

  ghost predicate NoDuplicates(s: seq<Id>) {
    forall i, j :: 0 <= i < j < |s| ==> s[i] != s[j]
  }

  lemma ConcatNoDuplicates(s: seq<Id>, t: seq<Id>)
    requires NoDuplicates(s) && NoDuplicates(t)
    requires forall y :: y in s ==> y !in t
    ensures NoDuplicates(s + t)
  {
    forall i, j | 0 <= i < j < |s + t|
      ensures (s + t)[i] != (s + t)[j]
    {
      if i < |s| && |s| <= j {
        assert (s + t)[i] in s && (s + t)[j] in t;
      }
    }
  }

  /** One tick of `x` runs no entity's tick twice, and it runs the tick of each component
      of `x`; `TickReachesAllOwned` carries the second part to any depth. */
  lemma {:induction false} TickRunsEachOnce(g: Graph, x: Id)
    requires Valid(g) && x in g.live
    ensures NoDuplicates(Preorder(g, x))
    ensures forall k :: 0 <= k < |g.nodes[x].components| ==> g.nodes[x].components[k] in Preorder(g, x)
    decreases g.next - x, 1
  {
    var cs := g.nodes[x].components;
    TickRunsEachOnceAll(g, x, cs);
    SubtreeAllFacts(g, x, cs);
    ConcatNoDuplicates([x], PreorderAll(g, x, cs));
    forall k | 0 <= k < |cs|
      ensures cs[k] in Preorder(g, x)
    {
      assert HeldBy(g, x, cs[k]);
      assert cs[k] in Preorder(g, cs[k]);
      PreorderAllMembers(g, x, cs, cs[k]);
    }
  }

  lemma {:induction false} TickRunsEachOnceAll(g: Graph, x: Id, cs: seq<Id>)
    requires Valid(g) && x in g.live
    requires forall k :: 0 <= k < |cs| ==> HeldBy(g, x, cs[k])
    requires forall i, j :: 0 <= i < j < |cs| ==> cs[i] != cs[j]
    ensures NoDuplicates(PreorderAll(g, x, cs))
    decreases g.next - x, 0, |cs|
  {
    if cs != [] {
      assert HeldBy(g, x, cs[0]);
      TickRunsEachOnce(g, cs[0]);
      TickRunsEachOnceAll(g, x, cs[1..]);
      forall y | y in Preorder(g, cs[0])
        ensures y !in PreorderAll(g, x, cs[1..])
      {
        PreorderAllMembers(g, x, cs[1..], y);
        if y in PreorderAll(g, x, cs[1..]) {
          var k :| 0 <= k < |cs[1..]| && y in Preorder(g, cs[1..][k]);
          SiblingSubtreesDisjoint(g, x, cs[0], cs[k + 1], y);
        }
      }
      ConcatNoDuplicates(Preorder(g, cs[0]), PreorderAll(g, x, cs[1..]));
    }
  }

  /** The tick of `x` reaches the components of everything it reaches: together with
      `SubtreeFacts`, the entities ticked are exactly `x` and what it owns at any depth. */
  lemma {:induction false} TickReachesAllOwned(g: Graph, x: Id, y: Id, k: nat)
    requires Valid(g) && x in g.live && y in Preorder(g, x)
    requires y in g.nodes && k < |g.nodes[y].components|
    ensures g.nodes[y].components[k] in Preorder(g, x)
    decreases y - x
  {
    SubtreeFacts(g, x);
    var cs := g.nodes[x].components;
    if y == x {
      TickRunsEachOnce(g, x);
    } else {
      var c := g.nodes[y].components[k];
      assert HeldBy(g, y, c);
      PreorderAllMembers(g, x, cs, y);
      var i :| 0 <= i < |cs| && y in Preorder(g, cs[i]);
      assert HeldBy(g, x, cs[i]);
      SubtreeFacts(g, cs[i]);
      TickReachesAllOwned(g, cs[i], y, k);
      PreorderAllMembers(g, x, cs, c);
    }
  }

  lemma SetShouldTickKeepsValid(g: Graph, y: Id, b: bool)
    requires Valid(g) && y in g.nodes
    ensures var g' := Graph(g.nodes[y := g.nodes[y].(shouldTick := b)], g.live, g.next);
      Valid(g') && forall o, c :: HeldBy(g, o, c) ==> HeldBy(g', o, c)
  {
    var g' := Graph(g.nodes[y := g.nodes[y].(shouldTick := b)], g.live, g.next);
    forall o, k | o in g'.live && 0 <= k < |g'.nodes[o].components|
      ensures HeldBy(g', o, g'.nodes[o].components[k])
    {
      assert HeldBy(g, o, g.nodes[o].components[k]);
    }
  }

  /** `Object::tick` never reads `bShouldTick`: setting it on any entity changes nothing
      about which ticks run, or in which order. */
  lemma {:induction false} TickIgnoresShouldTick(g: Graph, y: Id, b: bool, x: Id)
    requires Valid(g) && x in g.live && y in g.nodes
    ensures var g' := Graph(g.nodes[y := g.nodes[y].(shouldTick := b)], g.live, g.next);
      Valid(g') && Preorder(g', x) == Preorder(g, x)
    decreases g.next - x, 1
  {
    SetShouldTickKeepsValid(g, y, b);
    TickIgnoresShouldTickAll(g, y, b, x, g.nodes[x].components);
  }

  lemma {:induction false} TickIgnoresShouldTickAll(g: Graph, y: Id, b: bool, x: Id, cs: seq<Id>)
    requires Valid(g) && x in g.live && y in g.nodes
    requires forall k :: 0 <= k < |cs| ==> HeldBy(g, x, cs[k])
    ensures var g' := Graph(g.nodes[y := g.nodes[y].(shouldTick := b)], g.live, g.next);
      Valid(g') && (forall k :: 0 <= k < |cs| ==> HeldBy(g', x, cs[k])) &&
      PreorderAll(g', x, cs) == PreorderAll(g, x, cs)
    decreases g.next - x, 0, |cs|
  {
    SetShouldTickKeepsValid(g, y, b);
    if cs != [] {
      assert HeldBy(g, x, cs[0]);
      TickIgnoresShouldTick(g, y, b, cs[0]);
      TickIgnoresShouldTickAll(g, y, b, x, cs[1..]);
    }
  }

  /** Removing the first component that matches a concrete class leaves none that matches:
      with uniqueness, `RemoveComponentOfClass<C>` followed by `HasComponentOfClass<C>` is false. */
  lemma RemoveConcreteLeavesNone(g: Graph, o: Id, c: Class, p: Option<Id>)
    requires Valid(g) && o in g.live && IsConcreteComponent(c)
    requires forall k :: 0 <= k < |g.nodes[o].components| ==> g.nodes[o].components[k] in g.nodes
    requires FirstMatch(g.nodes, g.nodes[o].components, c).Some?
    ensures var g' := RemoveAt(g, o, FirstMatch(g.nodes, g.nodes[o].components, c).value, p);
      (forall k :: 0 <= k < |g'.nodes[o].components| ==> g'.nodes[o].components[k] in g'.nodes) &&
      FirstMatch(g'.nodes, g'.nodes[o].components, c).None?
  {
    var cs := g.nodes[o].components;
    var i := FirstMatch(g.nodes, cs, c).value;
    var g' := RemoveAt(g, o, i, p);
    RemovePreservesValid(g, o, i, p);
    assert g'.nodes[o].components == Erase(cs, i);
    forall j | 0 <= j < |Erase(cs, i)|
      ensures g'.nodes[Erase(cs, i)[j]].cls == g.nodes[Erase(cs, i)[j]].cls
      ensures !IsA(g.nodes[Erase(cs, i)[j]].cls, c)
    {
      var j' := if j < i then j else j + 1;
      assert Erase(cs, i)[j] == cs[j'];
      assert HeldBy(g, o, cs[j']);
      assert UniqueClasses(g.nodes, cs);
      assert g.nodes[cs[j']].cls != g.nodes[cs[i]].cls;
      ConcreteComponentIsLeaf(g.nodes[cs[i]].cls, c);
      ConcreteComponentIsLeaf(g.nodes[cs[j']].cls, c);
    }
  }

  /** The arena after component `i` of `o` is erased from the list: its back-reference
      becomes `p` (cleared by `Detach`, or left as it was), and it dies together with
      everything it owns. This takes the list's pointer to be the only owning one: no
      caller keeps a `shared_ptr` obtained by locking a handle to the component. */
  function RemoveAt(g: Graph, o: Id, i: nat, p: Option<Id>): (r: Graph)
    requires Valid(g) && o in g.live && i < |g.nodes[o].components|
    ensures r.live <= g.live && r.next == g.next
    ensures o in r.live && g.nodes[o].components[i] !in r.live
  {
    var c := g.nodes[o].components[i];
    assert HeldBy(g, o, c);
    SubtreeFacts(g, c);
    Graph(
      g.nodes[c := g.nodes[c].(parent := p)][o := g.nodes[o].(components := Erase(g.nodes[o].components, i))],
      g.live - Elements(Preorder(g, c)),
      g.next)
  }

  /** Every component left in a live list of the new arena is held as ownership demands. */
  lemma RemoveKeepsHeld(g: Graph, o: Id, i: nat, p: Option<Id>, o': Id, k: nat)
    requires Valid(g) && o in g.live && i < |g.nodes[o].components|
    requires var g' := RemoveAt(g, o, i, p); o' in g'.live && k < |g'.nodes[o'].components|
    ensures var g' := RemoveAt(g, o, i, p); HeldBy(g', o', g'.nodes[o'].components[k])
  {
    var g' := RemoveAt(g, o, i, p);
    var cs := g.nodes[o].components;
    var c := cs[i];
    assert HeldBy(g, o, c);
    SubtreeFacts(g, c);
    var c' := g'.nodes[o'].components[k];
    if o' == o {
      var j := if k < i then k else k + 1;
      assert cs[j] == c' && j != i;
      assert HeldBy(g, o, c');
      assert c' != c by {
        assert UniqueClasses(g.nodes, cs);
        if j < i {
          assert g.nodes[cs[j]].cls != g.nodes[cs[i]].cls;
        } else {
          assert g.nodes[cs[i]].cls != g.nodes[cs[j]].cls;
        }
      }
    } else {
      assert o' != c;
      assert c' == g.nodes[o'].components[k];
      assert HeldBy(g, o', c');
    }
  }

  /** Erasing one element of a list keeps it unique by class. */
  lemma EraseKeepsUnique(nodes: map<Id, Node>, cs: seq<Id>, i: nat)
    requires UniqueClasses(nodes, cs) && i < |cs|
    ensures UniqueClasses(nodes, Erase(cs, i))
  {
    var cs' := Erase(cs, i);
    forall a, b | 0 <= a < b < |cs'| && cs'[a] in nodes && cs'[b] in nodes
      ensures nodes[cs'[a]].cls != nodes[cs'[b]].cls
    {
      var a' := if a < i then a else a + 1;
      var b' := if b < i then b else b + 1;
      assert cs'[a] == cs[a'] && cs'[b] == cs[b'];
    }
  }

  /** Every live list of the new arena is still unique by class. */
  lemma RemoveKeepsUnique(g: Graph, o: Id, i: nat, p: Option<Id>, o': Id)
    requires Valid(g) && o in g.live && i < |g.nodes[o].components|
    requires o' in RemoveAt(g, o, i, p).live
    ensures var g' := RemoveAt(g, o, i, p); UniqueClasses(g'.nodes, g'.nodes[o'].components)
  {
    var g' := RemoveAt(g, o, i, p);
    var cs := g.nodes[o].components;
    var c := cs[i];
    assert HeldBy(g, o, c);
    assert g'.nodes == g.nodes[c := g.nodes[c].(parent := p)][o := g.nodes[o].(components := Erase(cs, i))];
    assert UniqueClasses(g.nodes, g.nodes[o'].components);
    if o' == o {
      EraseKeepsUnique(g.nodes, cs, i);
      SameClassesKeepUnique(g.nodes, g'.nodes, Erase(cs, i));
    } else {
      SameClassesKeepUnique(g.nodes, g'.nodes, g.nodes[o'].components);
    }
  }

  /** Uniqueness by class depends only on the classes of the entities. */
  lemma SameClassesKeepUnique(nodes: map<Id, Node>, nodes': map<Id, Node>, cs: seq<Id>)
    requires UniqueClasses(nodes, cs)
    requires nodes'.Keys == nodes.Keys
    requires forall x :: x in nodes ==> nodes'[x].cls == nodes[x].cls
    ensures UniqueClasses(nodes', cs)
  {
  }

  /** Removing a component (with or without `Detach`) leaves a valid arena. */
  lemma RemovePreservesValid(g: Graph, o: Id, i: nat, p: Option<Id>)
    requires Valid(g) && o in g.live && i < |g.nodes[o].components|
    ensures Valid(RemoveAt(g, o, i, p))
  {
    var g' := RemoveAt(g, o, i, p);
    forall o', k | o' in g'.live && 0 <= k < |g'.nodes[o'].components|
      ensures HeldBy(g', o', g'.nodes[o'].components[k])
    {
      RemoveKeepsHeld(g, o, i, p, o', k);
    }
    forall o' | o' in g'.live
      ensures UniqueClasses(g'.nodes, g'.nodes[o'].components)
    {
      RemoveKeepsUnique(g, o, i, p, o');
    }
  }
}
