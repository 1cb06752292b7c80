/**
 Small clients of the world builder: what a caller can conclude from the
 contracts alone about a few concrete constructions.
 */
module Scenarios {
  import opened ComponentStore
  import opened Ecs

  /** One entity declared with a "Price" and a "Quantity" component: each is found under its type. */
  method PriceAndQuantity()
  {
    var price := new Component("Price");
    var quantity := new Component("Quantity");
    var wb := new WorldBuilder();
    wb := wb.WithEntity("e1", [price, quantity]);
    var built := wb.Build();
    assert LastOfType([price, quantity], "Price") == Some(price);
    assert LastOfType([price, quantity], "Quantity") == Some(quantity);
    assert Lookup(built.world.Components, "Price", "e1") == Some(price);
    assert Lookup(built.world.Components, "Quantity", "e1") == Some(quantity);
    assert price.entityId == Some("e1") && quantity.entityId == Some("e1");
    assert built.world.Entities == ["e1", "e1", "e1"];
  }

  /** The same type declared twice for one entity: only the later component is stored. */
  method SameTypeTwice()
  {
    var first := new Component("Price");
    var second := new Component("Price");
    var wb := new WorldBuilder();
    wb := wb.WithEntity("e1", [first, second]);
    var built := wb.Build();
    assert LastOfType([first, second], "Price") == Some(second);
    assert Lookup(built.world.Components, "Price", "e1") == Some(second);
    assert forall x :: x != "e1" ==> Lookup(built.world.Components, "Price", x) == None;
    InsertAllKeys(map[], "e1", [first, second]);
    assert (set c | c in [first, second] :: c.typeName) == {"Price"};
    assert built.world.Components.Keys == {"Price"};
  }

  /**
   One component object declared for two entities: the second commit
   stamps it again, so the entry stored for the first entity now names
   the second entity as its owner.
   */
  method ReusedComponent()
  {
    var shared := new Component("Price");
    var wb := new WorldBuilder();
    wb := wb.WithEntity("e1", [shared]);
    wb := wb.WithEntity("e2", [shared]);
    var built := wb.Build();
    assert LastOfType([shared], "Price") == Some(shared);
    assert Lookup(built.world.Components, "Price", "e1") == Some(shared);
    assert shared.entityId == Some("e2");
  }

  /** Systems are kept in registration order; the entity list is untouched. */
  method SystemsInOrder()
  {
    var wb := new WorldBuilder();
    wb := wb.WithSystem(VoidSystem("hello world"));
    wb := wb.WithSystem(ComponentSystem("ingestor"));
    var built := wb.Build();
    assert built.world.Systems == [VoidSystem("hello world"), ComponentSystem("ingestor")];
    assert built.world.Entities == [];
  }
}
