# ECS world construction, modelled in Dafny

This project models the world-construction core of a small
Entity-Component-System runtime written in TypeScript (`src/ecs.ts`):

- the **component store** (`World.Components`), a map from component-type
  name to a map from entity to component;
- the **world** record with its store, its entity list (`Entities`) and its
  system list (`Systems`);
- `WorldContainer.addComponent`, which stamps a component with its entity,
  pushes the entity onto `Entities`, creates the type's sub-map on first use
  and inserts or overwrites the entry;
- `WorldContainer.addEntity`, which runs a declaration against a fresh
  `EntityBuilder`, pushes the new id once and then adds every pending
  component;
- the `EntityBuilder` (`WithComponent` stamps and appends, and returns the
  builder) and the fluent `WorldBuilder` (`WithEntity`, `WithSystem`,
  `Build`).

Files:

- `store.dfy`, module `ComponentStore`: entities, the `Component` class, the
  store type, and the pure functions `Lookup`, `Insert`, `InsertAll`,
  `LastIndexOfType` and `LastOfType` with the lemmas that give them their
  meaning (get after set, last write wins, other entities untouched).
- `world.dfy`, module `Ecs`: the `World`, `WorldContainer`, `EntityBuilder`
  and `WorldBuilder` classes, whose methods update their fields in place and
  are proved against the functions of `ComponentStore`.
- `scenarios.dfy`, module `Scenarios`: client methods that derive, from the
  contracts alone, what a few concrete constructions produce.

Modelling choices:

- Components are objects, as in the source: `entityId` is a mutable field
  (`None` stands for the `undefined` of a freshly constructed component),
  and the stored value is the very object that was declared. The type name
  is a constant field because nothing in the core writes it.
- The caller's declaration callback is modelled as the sequence of
  components it hands to `WithComponent`, replayed in order by `Declare`.
- Ids come from the UUID generator, which is outside the model: they are
  parameters. `WorldBuilder.WithEntity` requires that the id is not yet in
  `Entities`, which is what the generator guarantees.
  `WorldContainer.AddEntity` requires nothing and states its effect
  relative to the old state.
- The entity id is pushed onto `Entities` once when the entity is
  committed and once more per pending component (`src/ecs.ts:77`, `:86`).
  The model keeps this: after a commit with `n` pending components,
  `Entities` has grown by `n + 1` copies of the id.
- `World.Valid()` states that every entity owning a component occurs in
  `Entities`. The empty world satisfies it and every operation keeps it;
  `WithEntity` uses it to conclude that a fresh id owned nothing before.
- A stored component's `entityId` is NOT always the entity it is stored
  under. One might expect a stored component's owner never to change, but
  nothing in the code enforces this: both `WithComponent` and
  `addComponent` overwrite `entityId` unconditionally (src/ecs.ts:85,
  :111). Declaring one component object for two entities re-stamps it, so
  the first entity's entry then names the second entity.
  `Scenarios.ReusedComponent` shows this, and the model follows the code.

## Model

| member | source | states |
|---|---|---|
| `ComponentStore.Component.constructor` | src/ecs.ts:12-15 | a new component has the given type name and no owning entity yet |
| `ComponentStore.Lookup` | src/ecs.ts:17 | reading `Components[type][entity]`: absent exactly when the type has no sub-map or the entity no entry in it, otherwise the stored component |
| `ComponentStore.Insert` | src/ecs.ts:87-89 | get after set: looking up `(c.type, e)` yields `c`, every other (type, entity) lookup is unchanged; the type's sub-map is created as `{e: c}` only when the type was absent, otherwise it gains at most the key `e`; other types' sub-maps are untouched |
| `ComponentStore.InsertIdempotent` | src/ecs.ts:87-89 | inserting the same component for the same entity twice gives the same store as inserting it once |
| `ComponentStore.InsertOverwrites` | src/ecs.ts:89 | inserting two components of one type for one entity leaves only the later one (overwrite, no merge) |
| `ComponentStore.LastIndexOfType` | src/ecs.ts:78 | the position returned holds a component of the asked type and no later position does; no position is returned exactly when no component of that type is pending |
| `ComponentStore.InsertAll` | src/ecs.ts:78 | the store after adding the pending components of `e` in order; its own contract only says that no type loses its sub-map, and `InsertAllKeys` and `InsertAllLookup` give it its meaning |
| `ComponentStore.InsertAllKeys` | src/ecs.ts:78-88 | after the in-order adds the store's types are exactly the old types plus the declared types: a sub-map is created only for a declared type that had none |
| `ComponentStore.LastOfType` | src/ecs.ts:78 | the component left stored for a type by the in-order adds: present exactly when some pending component has that type, and then a pending component of that type (the last one, by `LastIndexOfType`) |
| `ComponentStore.InsertAllLookup` | src/ecs.ts:78-89 | after adding the pending components of `e` in order, `(t, e)` holds the last pending component of type `t` if there is one; every other lookup is as before |
| `ComponentStore.CommitDeclaredTypes` | src/ecs.ts:73-89 | for an entity that owned nothing, after the commit it owns a component of type `t` exactly when `t` was declared, and that component is the last one declared of type `t` |
| `ComponentStore.CommitKeepsOthers` | src/ecs.ts:78-89 | committing an entity's pending components changes no entry of any other entity |
| `Ecs.Repeat` | src/ecs.ts:77-86 | the run of ids a commit appends: exactly `n` entries, each the new id |
| `Ecs.RepeatCount` | src/ecs.ts:77-86 | the run of ids appended by a commit holds the new id exactly `n` times and no other entity |
| `Ecs.World.Valid` | src/ecs.ts:86-89 | every entity owning a component was pushed onto `Entities`, as `addComponent` pushes before it stores; hence an entity not in `Entities` owns nothing |
| `Ecs.World.constructor` | src/ecs.ts:60-64 | a world holds exactly the given store, systems and entities |
| `Ecs.WorldContainer.constructor` | src/ecs.ts:69-71 | the container wraps the given world |
| `Ecs.WorldContainer.AddComponent` | src/ecs.ts:81-90 | the component is stamped with `e`; the store becomes `Insert(old store, e, c)`; `Entities` gains exactly `e` at the end; `Systems` is unchanged; `Valid()` is kept |
| `Ecs.WorldContainer.AddEntity` | src/ecs.ts:73-79 | `Entities` grows by exactly `n + 1` copies of the id; the store becomes the old store with the pending components inserted in order; every declared component is stamped with the id; `Systems` is unchanged; `Valid()` is kept |
| `Ecs.Declare` | src/ecs.ts:76 | the declaration appends its components, in order, to the builder's pending list and stamps each with the builder's entity |
| `Ecs.EntityBuilder.constructor` | src/ecs.ts:105-108 | a fresh builder holds its given entity and no pending components |
| `Ecs.EntityBuilder.WithComponent` | src/ecs.ts:110-114 | the component is stamped with the builder's entity and appended at the end of the pending list, earlier entries unchanged; the same builder is returned |
| `Ecs.WorldBuilder.constructor` | src/ecs.ts:120-126 | a new builder wraps a fresh world with an empty store, no systems and no entities |
| `Ecs.WorldBuilder.WithEntity` | src/ecs.ts:128-131 | for a fresh id: the id appears exactly `n + 1` times in `Entities`; the store becomes the old store with the pending components inserted in order, so (by `InsertAllKeys`) the type keys grow by exactly the declared types; for every type it owns exactly the last declared component of that type and nothing of undeclared types; no other entity's entries change; `Systems` is unchanged; the same builder is returned |
| `Ecs.WorldBuilder.WithSystem` | src/ecs.ts:133-136 | the system is appended after all earlier ones; store and entities are unchanged; the same builder is returned |
| `Ecs.WorldBuilder.Build` | src/ecs.ts:138-140 | returns the builder's own container and changes nothing |

## Left out

- `ComponentSystem.execute`, `VoidSystem.execute` and `WorldRunner.ExecuteStep` (src/ecs.ts:39-57, 162-172): asynchronous fan-out and fan-in over promises, whose point is concurrency. Two facts are recorded here, not modelled: `ExecuteStep` always returns an empty `SystemResults` list, and its `map` callback has a block body that returns nothing, so the step never awaits the systems it starts.
- The selector, updater and action of the two system variants: a `System` keeps only its name and variant, because nothing in world construction calls them.
- `SystemResult` and the step result: plain holders used only by the step runner.
- The UUID generator (`uuid`'s `v4`) and `ramda`'s `flatten`: foreign library calls. Ids are parameters.
- Component payload fields such as `price` or `quantity`: the core never reads them. A stored component is identified as the same object that was declared.
- Arbitrary effects of the declaration callback: it is modelled as the components it hands to `WithComponent`. A callback that also changed the world directly is not modelled.
- JavaScript property lookup on the plain objects that serve as maps: a type name such as `constructor` finds an inherited property and no sub-map is created. The model uses Dafny maps, where every absent key is absent.
- `src/main.ts`: example usage and process start-up and exit, with no core logic.
