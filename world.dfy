/**
 The world of the ECS runtime and its construction: the world record
 (component store, entity list, system list), the container that commits
 entities and components into it, the entity builder that collects a new
 entity's components, and the fluent world builder.
 */
module Ecs {
  import opened ComponentStore

  /**
   A registered system, by name and variant. The selector, updater and
   action each variant carries are only used when a step executes, which
   this model does not cover.
   */
  datatype System = ComponentSystem(name: string) | VoidSystem(name: string)

  /** `n` copies of entity `e`. */
  function Repeat(e: Entity, n: nat): (r: seq<Entity>)
    ensures |r| == n
    ensures forall i :: 0 <= i < n ==> r[i] == e
  {
    if n == 0 then [] else Repeat(e, n - 1) + [e]
  }

  /** `Repeat(e, n)` holds `e` exactly `n` times and nothing else. */
  lemma {:induction false} RepeatCount(e: Entity, n: nat, x: Entity)
    ensures multiset(Repeat(e, n))[x] == if x == e then n else 0
  {
    if n > 0 {
      RepeatCount(e, n - 1, x);
      assert multiset(Repeat(e, n)) == multiset(Repeat(e, n - 1)) + multiset{e};
    }
  }

  /** The world record: the component store, the entities created so far, the registered systems. */
  class World {
    var Components: Store
    var Entities: seq<Entity>
    var Systems: seq<System>

    /**
     Every entity that owns a component has been pushed onto `Entities`.
     Holds of an empty world and is kept by every operation below.
     */
    ghost predicate Valid()
      reads this
      ensures Valid() ==> forall t, x :: x !in Entities ==> Lookup(Components, t, x) == None
    {
      forall t, x :: t in Components && x in Components[t] ==> x in Entities
    }

    constructor (components: Store, systems: seq<System>, entities: seq<Entity>)
      ensures Components == components && Systems == systems && Entities == entities
    {
      Components := components;
      Systems := systems;
      Entities := entities;
    }
  }

  /** Wraps one world and commits entities and components into it. */
  class WorldContainer {
    const world: World

    constructor (world: World)
      ensures this.world == world
    {
      this.world := world;
    }

    /**
     Stamp `c` with `e`, push `e` onto the entity list, and store `c` for
     `e` under its type (creating the type's sub-map on first use,
     overwriting an entry `e` already has of that type).
     */
    method AddComponent(e: Entity, c: Component)
      modifies world, c
      ensures c.entityId == Some(e)
      ensures world.Components == Insert(old(world.Components), e, c)
      ensures world.Entities == old(world.Entities) + [e]
      ensures world.Systems == old(world.Systems)
      ensures old(world.Valid()) ==> world.Valid()
    {
      c.entityId := Some(e);
      world.Entities := world.Entities + [e];
      if c.typeName !in world.Components {
        world.Components := world.Components[c.typeName := map[]];
      }
      world.Components := world.Components[c.typeName := world.Components[c.typeName][e := c]];
    }

    /**
     Commit a new entity `id` whose declaration adds the components
     `decl`, in order, through a fresh entity builder. The id is pushed
     once, and once more for every pending component as that component is
     added, so `Entities` grows by `|decl| + 1` copies of `id`.
     */
    method AddEntity(id: Entity, decl: seq<Component>)
      modifies world, decl
      ensures world.Entities == old(world.Entities) + Repeat(id, |decl| + 1)
      ensures world.Components == InsertAll(old(world.Components), id, decl)
      ensures world.Systems == old(world.Systems)
      ensures forall c :: c in decl ==> c.entityId == Some(id)
      ensures old(world.Valid()) ==> world.Valid()
    {
      var builder := new EntityBuilder(id);
      Declare(builder, decl);
      world.Entities := world.Entities + [id];
      var i := 0;
      while i < |builder.components|
        invariant 0 <= i <= |decl| && builder.components == decl
        invariant world.Entities == old(world.Entities) + Repeat(id, i + 1)
        invariant world.Components == InsertAll(old(world.Components), id, decl[..i])
        invariant world.Systems == old(world.Systems)
        invariant forall c :: c in decl ==> c.entityId == Some(id)
        invariant old(world.Valid()) ==> world.Valid()
      {
        AddComponent(id, builder.components[i]);
        InsertAllStep(old(world.Components), id, decl, i);
        i := i + 1;
      }
      assert decl[..i] == decl;
    }
  }

  /**
   The caller's declaration of a new entity: it hands each component of
   `decl` to the builder, in order, through the chainable `WithComponent`.
   */
  method Declare(builder: EntityBuilder, decl: seq<Component>)
    modifies builder, decl
    ensures builder.components == old(builder.components) + decl
    ensures forall c :: c in decl ==> c.entityId == Some(builder.entity)
  {
    var b := builder;
    for i := 0 to |decl|
      invariant b == builder
      invariant builder.components == old(builder.components) + decl[..i]
      invariant forall j :: 0 <= j < i ==> decl[j].entityId == Some(builder.entity)
    {
      b := b.WithComponent(decl[i]);
    }
  }

  /** Collects the pending components of one not yet committed entity. */
  class EntityBuilder {
    const entity: Entity
    var components: seq<Component>

    constructor (entity: Entity)
      ensures this.entity == entity && components == []
    {
      this.entity := entity;
      components := [];
    }

    /** Stamp `c` with this builder's entity, append it to the pending components, and return this builder. */
    method WithComponent(c: Component) returns (b: EntityBuilder)
      modifies this, c
      ensures b == this
      ensures c.entityId == Some(entity)
      ensures components == old(components) + [c]
    {
      c.entityId := Some(entity);
      components := components + [c];
      b := this;
    }
  }

  /** Fluent construction of a world, starting from an empty one. */
  class WorldBuilder {
    const container: WorldContainer

    ghost predicate Valid()
      reads container.world
    {
      container.world.Valid()
    }

    constructor ()
      ensures fresh(container) && fresh(container.world)
      ensures container.world.Components == map[]
      ensures container.world.Systems == [] && container.world.Entities == []
      ensures Valid()
    {
      var world := new World(map[], [], []);
      container := new WorldContainer(world);
    }

    /**
     Commit a new entity whose declaration adds `decl`. The id `id` comes
     from the system's UUID generator, which never repeats an id. After
     the commit `id` owns exactly the last declared component of each
     declared type and nothing else, every other entity's entries are as
     before, and `id` appears `|decl| + 1` times in `Entities`.
     */
    method WithEntity(id: Entity, decl: seq<Component>) returns (b: WorldBuilder)
      requires Valid()
      requires id !in container.world.Entities
      modifies container.world, decl
      ensures b == this && Valid()
      ensures container.world.Entities == old(container.world.Entities) + Repeat(id, |decl| + 1)
      ensures multiset(container.world.Entities)[id] == |decl| + 1
      ensures container.world.Components == InsertAll(old(container.world.Components), id, decl)
      ensures forall t :: Lookup(container.world.Components, t, id) == LastOfType(decl, t)
      ensures forall t, x :: x != id ==>
                Lookup(container.world.Components, t, x) == Lookup(old(container.world.Components), t, x)
      ensures container.world.Systems == old(container.world.Systems)
      ensures forall c :: c in decl ==> c.entityId == Some(id)
    {
      ghost var before := container.world.Components;
      ghost var listed := container.world.Entities;
      assert forall t :: Lookup(before, t, id) == None;
      container.AddEntity(id, decl);
      CommitDeclaredTypes(before, id, decl);
      CommitKeepsOthers(before, id, decl);
      RepeatCount(id, |decl| + 1, id);
      assert multiset(listed)[id] == 0;
      assert multiset(container.world.Entities) == multiset(listed) + multiset(Repeat(id, |decl| + 1));
      b := this;
    }

    /** Register `s` after every system registered so far; nothing else changes. */
    method WithSystem(s: System) returns (b: WorldBuilder)
      modifies container.world
      ensures b == this
      ensures container.world.Systems == old(container.world.Systems) + [s]
      ensures container.world.Components == old(container.world.Components)
      ensures container.world.Entities == old(container.world.Entities)
      ensures old(Valid()) ==> Valid()
    {
      container.world.Systems := container.world.Systems + [s];
      b := this;
    }

    /** The container of the world built so far; nothing is changed. */
    method Build() returns (c: WorldContainer)
      ensures c == container
    {
      c := container;
    }
  }
}
