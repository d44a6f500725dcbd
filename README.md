# In-memory resource tables of the FastAPI demo service

The service keeps two tables in process memory. `items_db` backs the
`/items` endpoints and `users_db` backs the `/users` endpoints. Each table
maps a generated string id to an open-ended JSON record. Each resource
offers three operations:

- list: the table's values in insertion order, sliced as `[skip:skip + limit]`
  (defaults 0 and 10);
- create: stores `{"id": new_id, **client_fields}` under `new_id` and returns it;
- get: an exact-key lookup that answers 404 with "Item not found" or
  "User not found" when the key is absent.

The two route files differ only in their table and their message. So the
model has one generic store, `ResourceStore.Store`, that carries its
not-found label, and two endpoint modules that bind it.

- `records.dfy` (module `Records`): JSON values, records, and the
  `{"id": id, **fields}` merge (`WithId`).
- `store.dfy` (module `ResourceStore`):
  - the `Store` class. Its field `table` is the dictionary. Its field
    `order` holds the keys in insertion order, which is the order Python
    dictionaries list their values in.
  - `Valid()`: `order` is duplicate-free and lists exactly the keys of `table`,
    and every stored record has an `"id"` field.
  - Python's non-negative slice (`Slice`), the list, get and create
    operations, and lemmas relating them.
- `items.dfy` and `users.dfy` (modules `Items`, `Users`): the endpoints of
  `app/routes/items.py` and `app/routes/users.py`. Each binds the store to
  its label. The service's module-level dictionary becomes a `db` object
  passed to each endpoint, because Dafny has no mutable module-level state.
  `Items.ItemRoutesScenario` replays the item route tests through the
  contracts only. It creates `{"name": "Test Item", "price": 9.99}`,
  reads it back by id, looks up `"nonexistent"`, and lists. It is a usage
  example, not a property.

List and get are functions of the store state. They change nothing, so two
calls with no create in between give the same answer. Create is the only
method that modifies the store. Its contract implies the following:

- it adds exactly the key `id`, because `table == old(table)[id := rec]`
  with `id !in old(table)`;
- every earlier key keeps its record;
- the listing grows by the new record at its end;
- a get of the new id yields the returned record.

The generated ids are distinct, because `Valid()` forbids duplicates in
`order` and every create must preserve `Valid()`.

A client-supplied `"id"` field overrides the generated one in the stored
record, while the table key stays the generated id (`app/routes/items.py:20`,
`app/routes/users.py:20`). One might expect the generated id to take
precedence; the code lets the client's value win, and the model follows the
code. `Records.WithId` states both cases and `ResourceStore.ClientIdWins`
shows the override under the generated key. Either way every stored record
has an `"id"` field, which `Valid()` keeps as part of the store's invariant.

## Model

| member | source | states |
|---|---|---|
| Records.WithId | app/routes/items.py:20 | the created record has the client's keys plus "id"; every client field keeps its value; "id" is the generated id when the client sent none, otherwise the client's value |
| Records.WithIdCarriesId | app/routes/users.py:20 | the record's "id" equals the generated id if and only if the client sent no "id" or sent that same value |
| ResourceStore.Slice | app/routes/items.py:14 | Python's `s[start:stop]` for non-negative bounds: length `max(0, min(stop, n) - min(start, n))`, element i is `s[start + i]` |
| ResourceStore.SliceOfExtension | app/routes/users.py:14 | a slice ending within the old values is unchanged by records appended later, so creates never disturb an earlier page |
| ResourceStore.ValuesOf | app/routes/items.py:13 | the values listed for a key sequence, one per key, the i-th being the record stored under the i-th key |
| ResourceStore.DistinctCardinality | app/routes/users.py:13 | a duplicate-free key sequence has as many elements as its key set, so the listing has as many records as the table |
| ResourceStore.InsertPreservesOrder | app/routes/items.py:21 | inserting a fresh key keeps the insertion order exact and duplicate-free and appends exactly the new record to the values |
| ResourceStore.Store.constructor | app/routes/items.py:8 | a new table is empty, satisfies the invariant (order exact and duplicate-free, every record has "id"), and carries the given not-found label |
| ResourceStore.Store.Size | app/routes/users.py:8 | the number of stored records equals the number of keys in insertion order |
| ResourceStore.Store.Values | app/routes/users.py:13 | `list(db.values())`: one record per stored key, in insertion order |
| ResourceStore.Store.List | app/routes/items.py:10-14 | returns `min(limit, max(0, n - skip))` records, element i being the record of the (skip+i)-th inserted key |
| ResourceStore.Store.Get | app/routes/items.py:24-32 | Found exactly when the key is stored, with its record, which has an "id" field; otherwise NotFound carrying the store's label |
| ResourceStore.Store.Create | app/routes/items.py:16-22 | keeps the invariant; stores and returns `{"id": id, **fields}` under the fresh id; table is the old one plus that key; order gains the id at its end; size grows by one; the listing gains the record at its end; get of the id yields it |
| ResourceStore.ClientIdWins | app/routes/items.py:19-21 | for any table, generated id and client fields whose "id" differs from the generated one, storing the merged record under the generated key gives a record whose "id" is the client's value, not the key |
| ResourceStore.ListedRecordsHaveId | app/routes/users.py:20-21 | every record a listing returns carries an "id" field |
| ResourceStore.ListPastEnd | app/routes/users.py:10-14 | with `skip >= n`, including an empty table, the listing is empty |
| ResourceStore.GetAgreesWithList | app/routes/items.py:13-32 | the record listed at position i is what a get of the i-th inserted key yields |
| Items.NewItemsDb | app/routes/items.py:7-8 | the items table starts empty and labelled "Item not found" |
| Items.ListItems | app/routes/items.py:11-14 | defaults skip 0 and limit 10; returns `min(limit, max(0, n - skip))` items, the i-th being the (skip+i)-th created |
| Items.CreateItem | app/routes/items.py:17-22 | the new item is stored under its fresh id and returned; the id is appended to the insertion order; every client field is present with its value; "id" is the generated id unless the client sent one; listing gains it at the end; get of the id returns it |
| Items.GetItem | app/routes/items.py:25-32 | the stored item for a present id; NotFound("Item not found") for an absent one |
| Users.NewUsersDb | app/routes/users.py:7-8 | the users table starts empty and labelled "User not found" |
| Users.ListUsers | app/routes/users.py:11-14 | defaults skip 0 and limit 10; returns `min(limit, max(0, n - skip))` users, the i-th being the (skip+i)-th created |
| Users.CreateUser | app/routes/users.py:17-22 | the new user is stored under its fresh id and returned; the id is appended to the insertion order; every client field is present with its value; "id" is the generated id unless the client sent one; listing gains it at the end; get of the id returns it |
| Users.GetUser | app/routes/users.py:25-32 | the stored user for a present id; NotFound("User not found") for an absent one |

## Left out

- Id generation: `uuid.uuid4()` (a random version-4 UUID, section 4.4 of RFC 4122) and its string form are not modelled. The id is a parameter of create with the precondition that it is not yet a key. So the model does not describe the overwrite that a colliding id would cause in the service.
- Negative `skip` or `limit`: Python counts such slice bounds from the end of the list. The model takes both as natural numbers.
- Field order inside a record: a Python dict keeps `"id"` first and then the client's fields, but a record here is an unordered map. The order of records in the table is modelled.
- Numbers in records are `real` values: floating-point rounding, the distinction between Python's `int` and `float` (`1` against `1.0`), and the `NaN` and `Infinity` that Python's JSON parser accepts are not modelled. Record contents are not validated by the service, and the model validates nothing either.
- HTTP plumbing: routing, path prefixes, `HTTPException`, status codes 200, 201 and 404, and `response_model` coercion. A 404 appears only as the `NotFound(detail)` result of get.
- Concurrency: the async handlers and the separate tables of each worker process. The model is sequential and has one table per resource.
- app/main.py: logging, CORS, lifespan hooks, the root and health endpoints with their `time.time()` timestamps, the psutil metrics, and the second bare `FastAPI()` assembly. None of this is part of this model.
- app/config.py and gunicorn_conf.py: environment loading and process-manager settings are not part of this model.
