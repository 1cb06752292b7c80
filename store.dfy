/**
 The component store of the ECS world: components, the type-then-entity
 indexed container that holds them, and the pure functions that describe
 what inserting one component, or the pending components of one entity,
 does to that container.
 */
module ComponentStore {

  /** An entity is an opaque identifier (a UUID string in the system). */
  type Entity = string

  datatype Option<+T> = None | Some(value: T)

  /**
   A component: a mutable record that names its owning entity and its
   variant. `entityId` starts out `None`, the `undefined` that a freshly
   constructed component carries until a builder or the world stamps it.
   The variant name never changes once the component exists. The
   variant's own payload fields are not part of this model.
   */
  class Component {
    var entityId: Option<Entity>
    const typeName: string

    constructor (typeName: string)
      ensures this.typeName == typeName && entityId == None
    {
      this.typeName := typeName;
      entityId := None;
    }
  }

  /** Component-type name -> entity -> the component of that type owned by that entity. */
  type Store = map<string, map<Entity, Component>>

  /** The component of type `t` stored for entity `x`, if any. */
  function Lookup(store: Store, t: string, x: Entity): (r: Option<Component>)
    ensures r.None? <==> t !in store || x !in store[t]
    ensures r.Some? ==> r.value == store[t][x]
  {
    if t in store && x in store[t] then Some(store[t][x]) else None
  }

  /**
   Store `c` for entity `e` under its own type: the type's sub-map is
   created only when the type is absent, and an entry already held for
   `e` under that type is overwritten.
   */
  function Insert(store: Store, e: Entity, c: Component): (r: Store)
    ensures forall t, x :: Lookup(r, t, x) == if t == c.typeName && x == e then Some(c) else Lookup(store, t, x)
    ensures r.Keys == store.Keys + {c.typeName}
    ensures c.typeName !in store ==> r[c.typeName] == map[e := c]
    ensures c.typeName in store ==> r[c.typeName].Keys == store[c.typeName].Keys + {e}
    ensures forall t :: t in store && t != c.typeName ==> r[t] == store[t]
  {
    var sub: map<Entity, Component> := if c.typeName in store then store[c.typeName] else map[];
    store[c.typeName := sub[e := c]]
  }

  /** Inserting the same component twice for the same entity changes nothing more. */
  lemma InsertIdempotent(store: Store, e: Entity, c: Component)
    ensures Insert(Insert(store, e, c), e, c) == Insert(store, e, c)
  {
    InsertOverwrites(store, e, c, c);
  }

  /**
   Two components of one type inserted for one entity leave exactly the
   later one: no merge, no trace of the earlier one.
   */
  lemma InsertOverwrites(store: Store, e: Entity, c1: Component, c2: Component)
    requires c1.typeName == c2.typeName
    ensures Insert(Insert(store, e, c1), e, c2) == Insert(store, e, c2)
  {
    var t := c1.typeName;
    var sub: map<Entity, Component> := if t in store then store[t] else map[];
    assert sub[e := c1][e := c2] == sub[e := c2];
  }

  /**
   Insert every component of `cs` for entity `e`, first to last. No type
   loses its sub-map; `InsertAllKeys` says which types gain one and
   `InsertAllLookup` what every entry holds afterwards.
   */
  function InsertAll(store: Store, e: Entity, cs: seq<Component>): (r: Store)
    ensures store.Keys <= r.Keys
  {
    if |cs| == 0 then store
    else Insert(InsertAll(store, e, cs[..|cs| - 1]), e, cs[|cs| - 1])
  }

  /** Inserting one more pending component extends the in-order inserts by one step. */
  lemma InsertAllStep(store: Store, e: Entity, cs: seq<Component>, i: nat)
    requires i < |cs|
    ensures InsertAll(store, e, cs[..i + 1]) == Insert(InsertAll(store, e, cs[..i]), e, cs[i])
  {
    assert cs[..i + 1][..i] == cs[..i];
  }

  /** The position of the last component of type `t` in `cs`, if there is one. */
  function LastIndexOfType(cs: seq<Component>, t: string): (r: Option<nat>)
    ensures r.None? ==> forall j :: 0 <= j < |cs| ==> cs[j].typeName != t
    ensures r.Some? ==> r.value < |cs| && cs[r.value].typeName == t
    ensures r.Some? ==> forall j :: r.value < j < |cs| ==> cs[j].typeName != t
  {
    if |cs| == 0 then None
    else if cs[|cs| - 1].typeName == t then Some(|cs| - 1)
    else LastIndexOfType(cs[..|cs| - 1], t)
  }

  /** The last component of type `t` in `cs`, if `cs` declares that type at all. */
  function LastOfType(cs: seq<Component>, t: string): (r: Option<Component>)
    ensures r.Some? <==> exists i :: 0 <= i < |cs| && cs[i].typeName == t
    ensures r.Some? ==> r.value in cs && r.value.typeName == t
  {
    match LastIndexOfType(cs, t)
    case Some(k) => Some(cs[k])
    case None => None
  }

  /**
   Inserting the pending components of `e` in order: for each type the
   store holds the last pending component of that type (last write wins),
   a type not declared keeps what it had, and no other entity's entry
   changes.
   */
  lemma {:induction false} InsertAllLookup(store: Store, e: Entity, cs: seq<Component>, t: string, x: Entity)
    ensures Lookup(InsertAll(store, e, cs), t, x)
         == if x == e && LastOfType(cs, t).Some? then LastOfType(cs, t) else Lookup(store, t, x)
  {
    if |cs| > 0 {
      var prefix := cs[..|cs| - 1];
      InsertAllLookup(store, e, prefix, t, x);
      if cs[|cs| - 1].typeName != t {
        assert LastIndexOfType(cs, t) == LastIndexOfType(prefix, t);
      }
    }
  }

  /** The in-order inserts create a sub-map exactly for the declared types that had none. */
  lemma {:induction false} InsertAllKeys(store: Store, e: Entity, cs: seq<Component>)
    ensures InsertAll(store, e, cs).Keys == store.Keys + set c | c in cs :: c.typeName
  {
    if |cs| > 0 {
      var prefix := cs[..|cs| - 1];
      InsertAllKeys(store, e, prefix);
      assert cs == prefix + [cs[|cs| - 1]];
      assert (set c | c in cs :: c.typeName) == (set c | c in prefix :: c.typeName) + {cs[|cs| - 1].typeName};
    }
  }

  /**
   When `e` owned nothing before, after its pending components are
   inserted it owns exactly one component per declared type, the last
   one declared of that type, and nothing of any type not declared.
   */
  lemma {:induction false} CommitDeclaredTypes(store: Store, e: Entity, cs: seq<Component>)
    requires forall t :: Lookup(store, t, e) == None
    ensures forall t :: Lookup(InsertAll(store, e, cs), t, e) == LastOfType(cs, t)
    ensures forall t :: Lookup(InsertAll(store, e, cs), t, e).Some?
                    <==> exists i :: 0 <= i < |cs| && cs[i].typeName == t
  {
    forall t
      ensures Lookup(InsertAll(store, e, cs), t, e) == LastOfType(cs, t)
    {
      InsertAllLookup(store, e, cs, t, e);
    }
  }

  /** Inserting the pending components of `e` leaves every other entity's entries as they were. */
  lemma {:induction false} CommitKeepsOthers(store: Store, e: Entity, cs: seq<Component>)
    ensures forall t, x :: x != e ==> Lookup(InsertAll(store, e, cs), t, x) == Lookup(store, t, x)
  {
    forall t, x | x != e
      ensures Lookup(InsertAll(store, e, cs), t, x) == Lookup(store, t, x)
    {
      InsertAllLookup(store, e, cs, t, x);
    }
  }
}
