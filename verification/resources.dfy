/**
 * The four resources of the restaurant/pizza API over a store of three
 * tables. The read-only handlers are functions of the tables; deleting a
 * restaurant and creating a join row are methods of the `Store` class,
 * which holds the tables and updates them.
 */
module Resources {
  import opened Json
  import opened Rows
  import opened Entities

  /** What a handler does with a request: return a body with a status, or let an exception escape. */
  datatype Outcome = Returns(body: Value, status: int) | Raises

  const NotFound: Outcome := Returns(Object([Member("error", Str("Restaurant not found"))]), 404)
  const ValidationFailed: Outcome := Returns(Object([Member("errors", Array([Str("validation errors")]))]), 400)
  const Deleted: Outcome := Returns(Str(""), 204)

  /** The store: the three tables, each in retrieval order. */
  datatype Tables = Tables(restaurants: seq<Restaurant>, pizzas: seq<Pizza>, restaurantPizzas: seq<RestaurantPizza>)

  /** Every table's ids are distinct, as primary keys are. */
  ghost predicate WellKeyed(t: Tables)
  {
    && DistinctKeys(t.restaurants, RestaurantKey)
    && DistinctKeys(t.pizzas, PizzaKey)
    && DistinctKeys(t.restaurantPizzas, RowKey)
  }

  /** Both entities a join row refers to are in the store. */
  predicate Resolves(t: Tables, rp: RestaurantPizza)
  {
    Find(t.restaurants, RestaurantKey, rp.restaurantId).Some? && Find(t.pizzas, PizzaKey, rp.pizzaId).Some?
  }

  /** Every join row refers to a stored restaurant and a stored pizza. */
  ghost predicate Referential(t: Tables)
  {
    forall rp :: rp in t.restaurantPizzas ==> Resolves(t, rp)
  }

  // ---------------------------------------------------------------- GET /restaurants

  function ListRestaurants(restaurants: seq<Restaurant>): (r: Outcome)
    ensures r.Returns? && r.status == 200 && r.body.Array? && |r.body.items| == |restaurants|
    ensures forall i :: 0 <= i < |restaurants| ==> r.body.items[i] == RestaurantJson(restaurants[i])
    ensures forall i :: 0 <= i < |restaurants| ==>
      r.body.items[i].Object? && Keys(r.body.items[i].members) == RestaurantFields &&
      Has(r.body.items[i], "id", Int(restaurants[i].id))
  {
    Returns(Array(seq(|restaurants|, i requires 0 <= i < |restaurants| => RestaurantJson(restaurants[i]))), 200)
  }

  // ---------------------------------------------------------------- GET /pizzas

  function ListPizzas(pizzas: seq<Pizza>): (r: Outcome)
    ensures r.Returns? && r.status == 200 && r.body.Array? && |r.body.items| == |pizzas|
    ensures forall i :: 0 <= i < |pizzas| ==> r.body.items[i] == PizzaJson(pizzas[i])
    ensures forall i :: 0 <= i < |pizzas| ==>
      r.body.items[i].Object? && Keys(r.body.items[i].members) == PizzaFields &&
      Has(r.body.items[i], "id", Int(pizzas[i].id))
  {
    Returns(Array(seq(|pizzas|, i requires 0 <= i < |pizzas| => PizzaJson(pizzas[i]))), 200)
  }

  // ---------------------------------------------------------------- GET /restaurants/<id>

  /** `v` lists `rows` in order, each with the pizza it refers to embedded. */
  ghost predicate ListsRows(v: seq<Value>, rows: seq<RestaurantPizza>, pizzas: seq<Pizza>)
  {
    && |v| == |rows|
    && forall i :: 0 <= i < |rows| ==>
         Find(pizzas, PizzaKey, rows[i].pizzaId).Some? &&
         v[i] == RowJson(rows[i], Find(pizzas, PizzaKey, rows[i].pizzaId).value)
  }

  /**
   * The entries built for `rows`, where each row's pizza is fetched through
   * its `pizza_id`; a row whose pizza is not in the store makes the
   * comprehension fail (None).
   */
  function EmbedRows(rows: seq<RestaurantPizza>, pizzas: seq<Pizza>): (r: Option<seq<Value>>)
    ensures r.None? <==> exists i :: 0 <= i < |rows| && Find(pizzas, PizzaKey, rows[i].pizzaId).None?
    ensures r.Some? ==> ListsRows(r.value, rows, pizzas)
  {
    if rows == [] then Some([])
    else
      match Find(pizzas, PizzaKey, rows[0].pizzaId)
      case None => None
      case Some(p) =>
        match EmbedRows(rows[1..], pizzas)
        case None =>
          ghost var i :| 0 <= i < |rows| - 1 && Find(pizzas, PizzaKey, rows[1..][i].pizzaId).None?;
          assert rows[i + 1] == rows[1..][i];
          None
        case Some(rest) =>
          ListsRowsCons(rows, pizzas, p, rest);
          Some([RowJson(rows[0], p)] + rest)
  }

  /** The first row's entry followed by the later rows' entries lists all the rows. */
  lemma ListsRowsCons(rows: seq<RestaurantPizza>, pizzas: seq<Pizza>, p: Pizza, rest: seq<Value>)
    requires rows != [] && Find(pizzas, PizzaKey, rows[0].pizzaId) == Some(p)
    requires ListsRows(rest, rows[1..], pizzas)
    ensures ListsRows([RowJson(rows[0], p)] + rest, rows, pizzas)
  {
  }

  /** The join rows of restaurant `id`, as `restaurant.restaurant_pizzas` yields them. */
  function RowsOf(t: Tables, id: int): seq<RestaurantPizza>
  {
    Select(t.restaurantPizzas, RowRestaurant, id)
  }

  /** `body` is restaurant `rest`'s projection extended by its `restaurant_pizzas` listing. */
  ghost predicate DescribesRestaurant(body: Value, rest: Restaurant, rows: seq<RestaurantPizza>, pizzas: seq<Pizza>)
  {
    && body.Object?
    && Keys(body.members) == RestaurantFields + ["restaurant_pizzas"]
    && Has(body, "id", Int(rest.id)) && Has(body, "name", Str(rest.name)) && Has(body, "address", Str(rest.address))
    && Lookup(body.members, "restaurant_pizzas").Some?
    && Lookup(body.members, "restaurant_pizzas").value.Array?
    && ListsRows(Lookup(body.members, "restaurant_pizzas").value.items, rows, pizzas)
  }

  function GetRestaurant(t: Tables, id: int): (r: Outcome)
    ensures r == NotFound <==> Find(t.restaurants, RestaurantKey, id).None?
    ensures r.Raises? <==>
      Find(t.restaurants, RestaurantKey, id).Some? &&
      exists rp :: rp in t.restaurantPizzas && rp.restaurantId == id && Find(t.pizzas, PizzaKey, rp.pizzaId).None?
    ensures r.Returns? && r != NotFound ==>
      r.status == 200 && Find(t.restaurants, RestaurantKey, id).Some? &&
      DescribesRestaurant(r.body, Find(t.restaurants, RestaurantKey, id).value, RowsOf(t, id), t.pizzas)
  {
    match Find(t.restaurants, RestaurantKey, id)
    case None => NotFound
    case Some(rest) =>
      var rows := RowsOf(t, id);
      match EmbedRows(rows, t.pizzas)
      case None =>
        assert exists rp :: rp in rows && Find(t.pizzas, PizzaKey, rp.pizzaId).None?;
        Raises
      case Some(items) =>
        var head := RestaurantJson(rest).members;
        var m := Member("restaurant_pizzas", Array(items));
        LookupAppend(head, m, "id");
        LookupAppend(head, m, "name");
        LookupAppend(head, m, "address");
        LookupAppend(head, m, "restaurant_pizzas");
        assert Keys(head + [m]) == Keys(head) + ["restaurant_pizzas"];
        Returns(Object(head + [m]), 200)
  }

  /** On a store without dangling join rows, fetching a restaurant never fails. */
  lemma GetNeverRaisesWhenReferential(t: Tables, id: int)
    requires Referential(t)
    ensures GetRestaurant(t, id).Returns?
    ensures GetRestaurant(t, id).status in {200, 404}
  {
  }

  /** A row inserted for a stored restaurant and pizza is listed last under that restaurant. */
  lemma {:induction false} InsertedRowIsListed(t: Tables, row: RestaurantPizza)
    requires Referential(t) && Resolves(t, row)
    ensures var before := EmbedRows(RowsOf(t, row.restaurantId), t.pizzas);
            var after := EmbedRows(RowsOf(t.(restaurantPizzas := t.restaurantPizzas + [row]), row.restaurantId), t.pizzas);
            before.Some? && after.Some? &&
            after.value == before.value + [RowJson(row, Find(t.pizzas, PizzaKey, row.pizzaId).value)]
  {
    var u := t.(restaurantPizzas := t.restaurantPizzas + [row]);
    SelectAppend(t.restaurantPizzas, row, RowRestaurant, row.restaurantId);
    var rows := RowsOf(t, row.restaurantId);
    assert RowsOf(u, row.restaurantId) == rows + [row];
    var p := Find(t.pizzas, PizzaKey, row.pizzaId).value;
    assert forall i :: 0 <= i < |rows| ==> rows[i] in t.restaurantPizzas;
    var before := EmbedRows(rows, t.pizzas);
    assert before.Some?;
    ListsRowsSnoc(rows, t.pizzas, p, row, before.value);
  }

  /** Listing one more row appends that row's entry. */
  lemma ListsRowsSnoc(rows: seq<RestaurantPizza>, pizzas: seq<Pizza>, p: Pizza, row: RestaurantPizza, v: seq<Value>)
    requires ListsRows(v, rows, pizzas) && Find(pizzas, PizzaKey, row.pizzaId) == Some(p)
    ensures EmbedRows(rows + [row], pizzas) == Some(v + [RowJson(row, p)])
  {
    var all := rows + [row];
    assert forall i :: 0 <= i < |rows| ==> all[i] == rows[i];
    assert all[|rows|] == row;
    var e := EmbedRows(all, pizzas);
    assert e.Some?;
    var w := v + [RowJson(row, p)];
    forall i | 0 <= i < |all| ensures e.value[i] == w[i] {
      if i < |rows| {
        assert e.value[i] == RowJson(rows[i], Find(pizzas, PizzaKey, rows[i].pizzaId).value) == v[i];
      }
    }
    assert e.value == w;
  }

  // ---------------------------------------------------------------- POST /restaurant_pizzas

  /** The three values `data.get(...)` reads from the request body. */
  datatype CreateRequest = CreateRequest(price: Value, restaurantId: Value, pizzaId: Value)

  /** Reading the fields; a body that is not a JSON object has no `.get`, which raises. */
  function ReadRequest(body: Value): (r: Option<CreateRequest>)
    ensures r.None? <==> !body.Object?
  {
    if body.Object? then
      Some(CreateRequest(Get(body.members, "price"), Get(body.members, "restaurant_id"), Get(body.members, "pizza_id")))
    else None
  }

  /** The check of the handler: price must not be None, both ids must be truthy. */
  predicate PassesValidation(req: CreateRequest)
  {
    req.price != Null && Truthy(req.restaurantId) && Truthy(req.pizzaId)
  }

  /** The row built from a validated request: integer columns, and a fresh id from the engine. */
  function NewRow(req: CreateRequest, rows: seq<RestaurantPizza>): (r: Option<RestaurantPizza>)
    ensures r.Some? <==> req.price.Int? && req.restaurantId.Int? && req.pizzaId.Int?
    ensures r.Some? ==>
      && Int(r.value.price) == req.price
      && Int(r.value.restaurantId) == req.restaurantId
      && Int(r.value.pizzaId) == req.pizzaId
      && forall x :: x in rows ==> x.id != r.value.id
  {
    if req.price.Int? && req.restaurantId.Int? && req.pizzaId.Int? then
      Some(RestaurantPizza(NextId(rows, RowKey), req.price.n, req.restaurantId.n, req.pizzaId.n))
    else None
  }

  /** The row that a POST body leads the handler to insert, if its checks let the body through. */
  function Admitted(body: Value, rows: seq<RestaurantPizza>): (r: Option<RestaurantPizza>)
    ensures !body.Object? ==> r.None?
    ensures body.Object? && Get(body.members, "price") == Null ==> r.None?
    ensures body.Object? && !Truthy(Get(body.members, "restaurant_id")) ==> r.None?
    ensures body.Object? && !Truthy(Get(body.members, "pizza_id")) ==> r.None?
    ensures r.Some? ==>
      && Has(body, "price", Int(r.value.price))
      && Has(body, "restaurant_id", Int(r.value.restaurantId)) && r.value.restaurantId != 0
      && Has(body, "pizza_id", Int(r.value.pizzaId)) && r.value.pizzaId != 0
      && forall x :: x in rows ==> x.id != r.value.id
    ensures body.Object? ==>
      var price, rid, pid := Get(body.members, "price"), Get(body.members, "restaurant_id"), Get(body.members, "pizza_id");
      price.Int? && rid.Int? && pid.Int? && rid.n != 0 && pid.n != 0 ==> r.Some? && r.value.price == price.n
  {
    match ReadRequest(body)
    case None => None
    case Some(req) => if PassesValidation(req) then NewRow(req, rows) else None
  }

  /** A price of 0 is let through, but a restaurant or pizza id of 0 is not. */
  lemma ZeroPriceAdmittedZeroIdRejected(rid: int, pid: int, rows: seq<RestaurantPizza>)
    requires rid != 0 && pid != 0
    ensures Admitted(Object([Member("price", Int(0)), Member("restaurant_id", Int(rid)), Member("pizza_id", Int(pid))]), rows)
            == Some(RestaurantPizza(NextId(rows, RowKey), 0, rid, pid))
    ensures Admitted(Object([Member("price", Int(0)), Member("restaurant_id", Int(0)), Member("pizza_id", Int(pid))]), rows).None?
    ensures Admitted(Object([Member("price", Int(0)), Member("restaurant_id", Int(rid)), Member("pizza_id", Int(0))]), rows).None?
    ensures Admitted(Object([Member("restaurant_id", Int(rid)), Member("pizza_id", Int(pid))]), rows).None?
  {
    var ok := [Member("price", Int(0)), Member("restaurant_id", Int(rid)), Member("pizza_id", Int(pid))];
    LookupUnique(ok, 0);
    LookupUnique(ok, 1);
    LookupUnique(ok, 2);
    var zeroRestaurant := [Member("price", Int(0)), Member("restaurant_id", Int(0)), Member("pizza_id", Int(pid))];
    LookupUnique(zeroRestaurant, 1);
    var zeroPizza := [Member("price", Int(0)), Member("restaurant_id", Int(rid)), Member("pizza_id", Int(0))];
    LookupUnique(zeroPizza, 2);
    var noPrice := [Member("restaurant_id", Int(rid)), Member("pizza_id", Int(pid))];
    LookupMeaning(noPrice, "price");
  }

  // ---------------------------------------------------------------- the store

  class Store {
    var restaurants: seq<Restaurant>
    var pizzas: seq<Pizza>
    var restaurantPizzas: seq<RestaurantPizza>

    function View(): Tables
      reads this
    {
      Tables(restaurants, pizzas, restaurantPizzas)
    }

    ghost predicate Valid()
      reads this
    {
      WellKeyed(View())
    }

    /** A store seeded with the given tables. */
    constructor (restaurants: seq<Restaurant>, pizzas: seq<Pizza>, restaurantPizzas: seq<RestaurantPizza>)
      requires WellKeyed(Tables(restaurants, pizzas, restaurantPizzas))
      ensures Valid() && View() == Tables(restaurants, pizzas, restaurantPizzas)
    {
      this.restaurants := restaurants;
      this.pizzas := pizzas;
      this.restaurantPizzas := restaurantPizzas;
    }

    /**
     * DELETE /restaurants/<id>. Removing the restaurant also removes its join
     * rows: the cascade is an assumption about the relationship's
     * configuration, which lives outside the handler.
     */
    method DeleteRestaurant(id: int) returns (r: Outcome)
      requires Valid()
      modifies this
      ensures Valid()
      ensures pizzas == old(pizzas)
      ensures Find(old(restaurants), RestaurantKey, id).None? ==> r == NotFound && View() == old(View())
      ensures Find(old(restaurants), RestaurantKey, id).Some? ==>
        && r == Deleted
        && restaurants == Reject(old(restaurants), RestaurantKey, id)
        && |restaurants| == |old(restaurants)| - 1
        && restaurantPizzas == Reject(old(restaurantPizzas), RowRestaurant, id)
        && forall rp :: rp in restaurantPizzas ==> rp.restaurantId != id
      ensures GetRestaurant(View(), id) == NotFound
      ensures old(Referential(View())) ==> Referential(View())
    {
      var found := Find(restaurants, RestaurantKey, id);
      if found.None? {
        return NotFound;
      }
      DeleteCascade(View(), id);
      restaurantPizzas := Reject(restaurantPizzas, RowRestaurant, id);
      restaurants := Reject(restaurants, RestaurantKey, id);
      return Deleted;
    }

    /**
     * POST /restaurant_pizzas. `enforcesForeignKeys` stands for the database
     * engine: when it enforces foreign keys, committing a row whose
     * restaurant or pizza is missing fails and nothing is stored; when it
     * does not, the row is committed and the handler fails afterwards,
     * reading the missing entity.
     */
    method PostRestaurantPizza(body: Value, enforcesForeignKeys: bool) returns (r: Outcome)
      requires Valid()
      modifies this
      ensures Valid()
      ensures restaurants == old(restaurants) && pizzas == old(pizzas)
      ensures r == ValidationFailed || (r.Returns? && r.status == 201)
      ensures Admitted(body, old(restaurantPizzas)).None? ==>
        r == ValidationFailed && restaurantPizzas == old(restaurantPizzas)
      ensures Admitted(body, old(restaurantPizzas)).Some? ==>
        var row := Admitted(body, old(restaurantPizzas)).value;
        if Resolves(old(View()), row) then
          && r == Returns(CreatedJson(row, Find(pizzas, PizzaKey, row.pizzaId).value,
                                      Find(restaurants, RestaurantKey, row.restaurantId).value), 201)
          && restaurantPizzas == old(restaurantPizzas) + [row]
        else
          && r == ValidationFailed
          && restaurantPizzas == if enforcesForeignKeys then old(restaurantPizzas) else old(restaurantPizzas) + [row]
      ensures enforcesForeignKeys && old(Referential(View())) ==> Referential(View())
    {
      var request := ReadRequest(body);
      if request.None? {
        return ValidationFailed;
      }
      if !PassesValidation(request.value) {
        return ValidationFailed;
      }
      var row := NewRow(request.value, restaurantPizzas);
      if row.None? {
        return ValidationFailed;
      }
      AppendFreshKeepsDistinct(restaurantPizzas, row.value, RowKey);
      var restaurant := Find(restaurants, RestaurantKey, row.value.restaurantId);
      var pizza := Find(pizzas, PizzaKey, row.value.pizzaId);
      if restaurant.None? || pizza.None? {
        if !enforcesForeignKeys {
          restaurantPizzas := restaurantPizzas + [row.value];
        }
        return ValidationFailed;
      }
      restaurantPizzas := restaurantPizzas + [row.value];
      return Returns(CreatedJson(row.value, pizza.value, restaurant.value), 201);
    }
  }

  /** The tables after restaurant `id` and, by cascade, its join rows are removed. */
  function AfterDelete(t: Tables, id: int): Tables
  {
    Tables(Reject(t.restaurants, RestaurantKey, id), t.pizzas, Reject(t.restaurantPizzas, RowRestaurant, id))
  }

  /**
   * Deleting a stored restaurant removes exactly that restaurant, keeps the
   * ids distinct, leaves no join row pointing at it (so none dangles that
   * did not before), and a later fetch of it is answered 404.
   */
  lemma DeleteCascade(t: Tables, id: int)
    requires WellKeyed(t) && Find(t.restaurants, RestaurantKey, id).Some?
    ensures WellKeyed(AfterDelete(t, id))
    ensures |AfterDelete(t, id).restaurants| == |t.restaurants| - 1
    ensures forall rp :: rp in AfterDelete(t, id).restaurantPizzas ==> rp.restaurantId != id
    ensures GetRestaurant(AfterDelete(t, id), id) == NotFound
    ensures Referential(t) ==> Referential(AfterDelete(t, id))
  {
    var u := AfterDelete(t, id);
    RejectKeepsDistinct(t.restaurants, RestaurantKey, RestaurantKey, id);
    RejectKeepsDistinct(t.restaurantPizzas, RowKey, RowRestaurant, id);
    RejectRemovesOne(t.restaurants, RestaurantKey, id);
    assert Find(u.restaurants, RestaurantKey, id).None?;
    if Referential(t) {
      forall rp | rp in u.restaurantPizzas ensures Resolves(u, rp) {
        var owner := Find(t.restaurants, RestaurantKey, rp.restaurantId).value;
        assert owner in u.restaurants;
      }
    }
  }

  /**
   * A session against a seeded store: the same pairing is created twice,
   * once at price 0, and both rows are kept under distinct ids.
   */
  method CreateSamePairingTwice()
  {
    var store := new Store([Restaurant(1, "Corner Slice", "12 Main St")], [Pizza(7, "Margherita", "Dough, Tomato, Mozzarella")], []);
    var free := Object([Member("price", Int(0)), Member("restaurant_id", Int(1)), Member("pizza_id", Int(7))]);
    ZeroPriceAdmittedZeroIdRejected(1, 7, []);
    assert Resolves(store.View(), RestaurantPizza(1, 0, 1, 7));
    var first := store.PostRestaurantPizza(free, true);
    assert first.status == 201 && store.restaurantPizzas == [RestaurantPizza(1, 0, 1, 7)];
    ZeroPriceAdmittedZeroIdRejected(1, 7, store.restaurantPizzas);
    assert NextId(store.restaurantPizzas, RowKey) == 2;
    assert Resolves(store.View(), RestaurantPizza(2, 0, 1, 7));
    var second := store.PostRestaurantPizza(free, true);
    assert second.status == 201 && store.restaurantPizzas == [RestaurantPizza(1, 0, 1, 7), RestaurantPizza(2, 0, 1, 7)];
  }

  /** Deleting a restaurant removes its join rows; deleting it again answers 404. */
  method DeleteTwice()
  {
    var store := new Store([Restaurant(1, "Corner Slice", "12 Main St")], [Pizza(7, "Margherita", "Dough, Tomato, Mozzarella")],
                           [RestaurantPizza(3, 10, 1, 7)]);
    var gone := store.DeleteRestaurant(1);
    assert gone == Deleted && store.restaurants == [] && store.restaurantPizzas == [];
    var again := store.DeleteRestaurant(1);
    assert again == NotFound;
  }
}
