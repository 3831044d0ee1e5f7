/**
 * The three tables' rows and the projections the handlers expose them
 * through. Each projection is an object holding exactly the fields of its
 * allow-list, in the allow-list's order, bound to the row's own values.
 */
module Entities {
  import opened Json

  datatype Restaurant = Restaurant(id: int, name: string, address: string)

  datatype Pizza = Pizza(id: int, name: string, ingredients: string)

  /** The join row: a pizza offered by a restaurant at a price. */
  datatype RestaurantPizza = RestaurantPizza(id: int, price: int, restaurantId: int, pizzaId: int)

  // Keys by which the tables are searched.
  function RestaurantKey(r: Restaurant): int { r.id }
  function PizzaKey(p: Pizza): int { p.id }
  function RowKey(rp: RestaurantPizza): int { rp.id }
  function RowRestaurant(rp: RestaurantPizza): int { rp.restaurantId }

  const RestaurantFields: seq<string> := ["id", "name", "address"]
  const PizzaFields: seq<string> := ["id", "name", "ingredients"]
  const EmbeddedRowFields: seq<string> := ["id", "price", "pizza_id", "restaurant_id", "pizza"]
  const CreatedRowFields: seq<string> := EmbeddedRowFields + ["restaurant"]

  /** `to_dict(only=("id", "name", "address"))` on a restaurant. */
  function RestaurantJson(r: Restaurant): (v: Value)
    ensures v.Object? && Keys(v.members) == RestaurantFields
    ensures Has(v, "id", Int(r.id)) && Has(v, "name", Str(r.name)) && Has(v, "address", Str(r.address))
  {
    var ms := [Member("id", Int(r.id)), Member("name", Str(r.name)), Member("address", Str(r.address))];
    LookupUnique(ms, 0);
    LookupUnique(ms, 1);
    LookupUnique(ms, 2);
    Object(ms)
  }

  /** `to_dict(only=("id", "name", "ingredients"))` on a pizza. */
  function PizzaJson(p: Pizza): (v: Value)
    ensures v.Object? && Keys(v.members) == PizzaFields
    ensures Has(v, "id", Int(p.id)) && Has(v, "name", Str(p.name)) && Has(v, "ingredients", Str(p.ingredients))
  {
    var ms := [Member("id", Int(p.id)), Member("name", Str(p.name)), Member("ingredients", Str(p.ingredients))];
    LookupUnique(ms, 0);
    LookupUnique(ms, 1);
    LookupUnique(ms, 2);
    Object(ms)
  }

  /** A join row as listed under a restaurant, with its pizza embedded. */
  function RowJson(rp: RestaurantPizza, p: Pizza): (v: Value)
    ensures v.Object? && Keys(v.members) == EmbeddedRowFields
    ensures Has(v, "id", Int(rp.id)) && Has(v, "price", Int(rp.price))
    ensures Has(v, "pizza_id", Int(rp.pizzaId)) && Has(v, "restaurant_id", Int(rp.restaurantId))
    ensures Has(v, "pizza", PizzaJson(p))
  {
    var ms := [
      Member("id", Int(rp.id)),
      Member("price", Int(rp.price)),
      Member("pizza_id", Int(rp.pizzaId)),
      Member("restaurant_id", Int(rp.restaurantId)),
      Member("pizza", PizzaJson(p))
    ];
    assert UniqueKeys(ms);
    LookupUnique(ms, 0);
    LookupUnique(ms, 1);
    LookupUnique(ms, 2);
    LookupUnique(ms, 3);
    LookupUnique(ms, 4);
    Object(ms)
  }

  /** The body answered for a newly created join row: both referenced entities embedded. */
  function CreatedJson(rp: RestaurantPizza, p: Pizza, r: Restaurant): (v: Value)
    ensures v.Object? && Keys(v.members) == CreatedRowFields
    ensures Has(v, "id", Int(rp.id)) && Has(v, "price", Int(rp.price))
    ensures Has(v, "pizza_id", Int(rp.pizzaId)) && Has(v, "restaurant_id", Int(rp.restaurantId))
    ensures Has(v, "pizza", PizzaJson(p)) && Has(v, "restaurant", RestaurantJson(r))
  {
    var row := RowJson(rp, p).members;
    var m := Member("restaurant", RestaurantJson(r));
    LookupAppend(row, m, "id");
    LookupAppend(row, m, "price");
    LookupAppend(row, m, "pizza_id");
    LookupAppend(row, m, "restaurant_id");
    LookupAppend(row, m, "pizza");
    LookupAppend(row, m, "restaurant");
    assert Keys(row + [m]) == Keys(row) + ["restaurant"];
    Object(row + [m])
  }
}
