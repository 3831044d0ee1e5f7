# Restaurant/pizza resource API — a Dafny model

This project models the request handlers of a small Flask-RESTful API
(`server/app.py`). The API serves three tables: restaurants, pizzas, and
restaurant_pizzas join rows that give a price to a pairing of one
restaurant with one pizza. There are five handlers:

- `GET /restaurants` lists every restaurant as `{id, name, address}`.
- `GET /restaurants/<id>` returns one restaurant with its join rows
  embedded. Each embedded row carries its pizza. An absent id gets
  `{"error": "Restaurant not found"}` with status 404.
- `DELETE /restaurants/<id>` removes the restaurant and answers an empty
  body with status 204. An absent id gets the same 404 body.
- `GET /pizzas` lists every pizza as `{id, name, ingredients}`.
- `POST /restaurant_pizzas` validates a JSON body and inserts one join row.
  It answers 201 with the new row, its pizza and its restaurant embedded.
  Every failure inside the handler becomes
  `{"errors": ["validation errors"]}` with status 400.

The database becomes an in-memory store of three tables (`Resources.Tables`).
Each table is a sequence of rows in retrieval order, with distinct ids.
ORM queries become explicit operations on those sequences (module `Rows`):
- `query.get(id)` is a lookup by key.
- `restaurant.restaurant_pizzas` selects the rows by foreign key.
- `session.delete` rejects rows by key.
- The engine's id assignment is a fresh-id function.

The reflective `to_dict(only=...)` calls become one projection function per
entity (module `Entities`). Request and response bodies are JSON values
(module `Json`). That module also models Python's `dict.get`, where a later
duplicate key wins, and Python truthiness.

The read-only handlers are functions of the tables. Delete and create change
the store, so they are methods of the class `Resources.Store`, which holds
the three tables as fields. Each handler yields an `Outcome`: a body with a
status, or `Raises` when an exception escapes the handler (Flask then
answers 500).

Two things the handlers depend on are not in `server/app.py`:

- **Cascade on delete (assumption).** The relationship configuration lives
  in `models.py`, which is not part of this model. `DeleteRestaurant`
  assumes the relationship cascades, so deleting a restaurant also removes
  its join rows.
- **Foreign-key enforcement (a parameter).** `PostRestaurantPizza` takes
  `enforcesForeignKeys` to say what the database engine does with a row
  whose restaurant or pizza does not exist.
  - If the engine enforces foreign keys, the commit fails and nothing is
    stored.
  - If it does not (SQLite's default, the configured default database), the
    row is committed first. The handler then fails when it reads
    `new_rp.pizza` or `new_rp.restaurant`, and answers 400.

  Either way the answer is 400. The store is left unchanged only in the
  first case: the handler itself never removes a row it has committed.

Two client methods use only the contracts below:
- `Resources.CreateSamePairingTwice` creates the same pairing twice at price 0. Both creates succeed, and the two rows get distinct ids.
- `Resources.DeleteTwice` deletes a restaurant and its join row, then gets 404 on a second delete.

## Model

Helpers without their own row: `Json.Truthy` (Python truthiness, used at
server/app.py:76) and `Resources.PassesValidation` (the check at
server/app.py:76) are carried by the `Resources.Admitted` and
`Resources.ZeroPriceAdmittedZeroIdRejected` rows. `Resources.RowsOf`
(`restaurant.restaurant_pizzas`, server/app.py:47) is `Rows.Select` on the
join table and is carried by the `Rows.Select` and `Rows.SelectAppend` rows.

| member | source | states |
|---|---|---|
| `Json.LookupMeaning` | server/app.py:71-73 | A key in a parsed body reads as absent exactly when no member has it. Otherwise it reads as the value of its last member, because a later duplicate key overrides an earlier one. |
| `Json.Get` | server/app.py:71-73 | `data.get(key)`: a present key reads as the value bound to it (its last member's), and a missing key reads as None. A missing key and an explicit null both read as None. |
| `Rows.Find` | server/app.py:34 | `query.get(id)`: the result is absent exactly when no row has key `id`. A found row is in the table and has key `id`. |
| `Rows.FindUnique` | server/app.py:34 | With distinct keys, the row found is the one row that has the key. |
| `Rows.Select` | server/app.py:47 | `restaurant.restaurant_pizzas`: a row is selected exactly when it is in the table and its foreign key is `id`. |
| `Rows.Reject` | server/app.py:56 | The rows left after a removal by key are exactly the rows whose key differs. The table is unchanged when no row has the key. |
| `Rows.RejectAppend` | server/app.py:56 | A row appended to the table is kept after the rows kept before it, unless it has the removed key. Together with the empty table this fixes the remaining rows and their order exactly. |
| `Rows.RejectRemovesOne` | server/app.py:56 | With distinct ids, removing a stored id drops exactly one row. |
| `Rows.RejectKeepsDistinct` | server/app.py:56 | Removing rows keeps the remaining primary keys distinct. |
| `Rows.NextId` | server/app.py:85-89 | The id the engine gives a new row is positive and above every id in the table, so it is fresh. |
| `Rows.SelectAppend` | server/app.py:47 | A row appended to the table is selected after the rows selected before it, when its foreign key matches. |
| `Rows.AppendFreshKeepsDistinct` | server/app.py:85-86 | Inserting a row with a fresh id keeps primary keys distinct. |
| `Entities.RestaurantJson` | server/app.py:28 | The restaurant projection has exactly the keys id, name and address, in that order, bound to the restaurant's own values. |
| `Entities.PizzaJson` | server/app.py:64 | The pizza projection has exactly the keys id, name and ingredients, bound to the pizza's own values. |
| `Entities.RowJson` | server/app.py:40-46 | An embedded join row has exactly the keys id, price, pizza_id, restaurant_id and pizza. The pizza key holds the pizza's projection. |
| `Entities.CreatedJson` | server/app.py:88-95 | The created-row body has the embedded-row keys followed by restaurant. The pizza and restaurant keys hold the same projections that the GET handlers use. |
| `Resources.ListRestaurants` | server/app.py:25-29 | Status 200 with one entry per stored restaurant, in store order. Each entry has exactly the keys id, name and address. |
| `Resources.ListPizzas` | server/app.py:61-64 | Status 200 with one entry per stored pizza, in store order. Each entry has exactly the keys id, name and ingredients. |
| `Resources.EmbedRows` | server/app.py:39-48 | The listing fails exactly when some row's pizza is not in the store. Otherwise it has one entry per row, in order, each embedding that row's pizza. |
| `Resources.GetRestaurant` | server/app.py:32-49 | The answer is the 404 error body exactly when the id is absent. It raises exactly when a row of the restaurant refers to a missing pizza. Otherwise the status is 200 and the body is the restaurant's projection plus `restaurant_pizzas`, which lists the restaurant's join rows in table order, each with its pizza. |
| `Resources.GetNeverRaisesWhenReferential` | server/app.py:45 | On a store where every join row's pizza and restaurant exist, fetching a restaurant always answers 200 or 404. |
| `Resources.InsertedRowIsListed` | server/app.py:39-47 | After a row is inserted for a stored restaurant and pizza, that restaurant's listing is the earlier listing followed by the new row's entry. |
| `Resources.ListsRowsSnoc` | server/app.py:39-47 | Listing one more row appends exactly that row's entry to the listing. |
| `Resources.ReadRequest` | server/app.py:69-73 | Reading the three fields fails, and the handler answers 400, exactly when the body is not a JSON object. |
| `Resources.NewRow` | server/app.py:79-83 | A validated request yields a row exactly when price and both ids are integers. The row carries those three values and an id held by no stored row. |
| `Resources.Admitted` | server/app.py:69-83 | Nothing is inserted for a non-object body, a missing or null price, or a restaurant_id or pizza_id that is missing or falsy (0 included). A price of 0 passes, because integer fields with non-zero ids are always admitted. An admitted row carries the body's price and ids and a fresh id. |
| `Resources.ZeroPriceAdmittedZeroIdRejected` | server/app.py:75-77 | On concrete bodies: price 0 with non-zero ids gives a row at price 0. A restaurant_id of 0, a pizza_id of 0, or no price gives nothing. |
| `Resources.DeleteCascade` | server/app.py:51-58 | Deleting a stored restaurant removes exactly one restaurant and keeps ids distinct. It leaves no join row pointing at that restaurant and keeps every other reference resolvable. A later fetch answers 404. |
| `Resources.Store.DeleteRestaurant` | server/app.py:51-58 | An absent id gets the 404 body and the store is unchanged. A present id gets 204 with an empty body; the restaurant and its join rows are removed, and the other rows stay in order. Pizzas are never touched, and a later GET of the id answers 404. |
| `Resources.Store.PostRestaurantPizza` | server/app.py:67-98 | The answer is either 201 or the 400 body. It is 201 exactly when the body is admitted and both referenced entities exist; then exactly one row is appended and the body embeds both projections. An unadmitted body stores nothing. A body whose restaurant or pizza is missing gets 400 and stores nothing when the engine enforces foreign keys, or the one row otherwise. Restaurants and pizzas are never changed. |

## Left out

- HTTP plumbing is not modelled: the app and database setup, the index greeting, routing, the `<int:id>` path converter and `app.run` (server/app.py:1-23, 101-107). The handlers take the id as any integer.
- Configuration (`DB_URI`) and migrations are not modelled; they are outside the handlers.
- `request.get_json()` runs before the handler's `try` block. A request that is not JSON is answered by the framework, so the model starts from the parsed body.
- Sessions, transactions and concurrency are not modelled. A failed commit leaves the store as it was; nothing else about isolation is modelled.
- `models.py` is not part of this model. Any field validators in it (a price range, say) are not modelled. The delete cascade is an assumption, as described above.
- JSON encoding (`app.json.compact`) is not modelled, and neither is the key order `to_dict` produces. Projections keep their allow-list's order.
- Fractional JSON numbers are not modelled: numbers are integers, and so is price.
- Resources.Admitted: a price or id that passes the handler's check but is not a JSON integer (a string, `true`, a list) admits no row here. The database engine might coerce such a value and store it; that coercion is not modelled.
- Resources.Store.PostRestaurantPizza: for such non-integer values it answers 400 and stores nothing, for the same reason.
- Rows.NextId: states only that the new id is fresh. The engine's exact choice of id is not modelled.
- Resources.GetRestaurant: ids are unbounded integers. The engine's 64-bit INTEGER columns are not modelled: an id outside that range makes the driver raise inside `query.get` (server/app.py:34), which the source answers with 500, while the model answers 404.
- Resources.Store.DeleteRestaurant: the same 64-bit limit is not modelled; an out-of-range id raises in `query.get` (server/app.py:52) in the source, where the model answers 404.
- Resources.Store.PostRestaurantPizza: the same 64-bit limit is not modelled; a price or id outside that range makes the commit fail (server/app.py:86) and the source answers 400 with nothing stored, while the model admits the row (answering 201, or 400 with the row stored when foreign keys are not enforced).
- Resources.Admitted: admits integer values of any size, for the same reason.
- The framework's answer to an exception that escapes a handler (500) is not modelled; the model reports it only as `Raises`.
