/**
 The items endpoints: the generic store bound to the items table, whose
 lookups fail with "Item not found". The table is a module-level dictionary
 in the service; here it is the `db` object every endpoint is given.
 */
module Items {
  import opened Records
  import opened ResourceStore

  /** The detail of the 404 answer to a lookup of an absent item. */
  const ItemNotFound: string := "Item not found"

  /** `db` is the items table: a consistent store labelled for items. */
  ghost predicate IsItemsDb(db: Store)
    reads db
  {
    db.Valid() && db.notFoundLabel == ItemNotFound
  }

  /** `items_db = {}`: the table as the process starts with it. */
  method NewItemsDb() returns (db: Store)
    ensures fresh(db)
    ensures IsItemsDb(db)
    ensures db.Size() == 0
  {
    db := new Store(ItemNotFound);
  }

  /** `GET /items/?skip=&limit=`: at most `limit` items, oldest first, from position `skip` on. */
  function ListItems(db: Store, skip: nat := DefaultSkip, limit: nat := DefaultLimit): (r: seq<Record>)
    reads db
    requires IsItemsDb(db)
    ensures |r| == Min(limit, Max(0, db.Size() - skip))
    ensures forall i :: 0 <= i < |r| ==> r[i] == db.Values()[skip + i]
  {
    db.List(skip, limit)
  }

  /** `POST /items/`: stores the client's fields under the new id `itemId` and answers with the stored record. */
  method CreateItem(db: Store, itemId: string, item: Record) returns (created: Record)
    requires IsItemsDb(db)
    requires itemId !in db.table
    modifies db
    ensures IsItemsDb(db)
    ensures db.table == old(db.table)[itemId := created]
    ensures db.order == old(db.order) + [itemId]
    ensures db.Values() == old(db.Values()) + [created]
    ensures forall k :: k in item ==> k in created && created[k] == item[k]
    ensures created.Keys == item.Keys + {IdField}
    ensures IdField !in item ==> created[IdField] == Str(itemId)
    ensures GetItem(db, itemId) == Found(created)
  {
    created := db.Create(itemId, item);
  }

  /** `GET /items/{item_id}`: the stored item, or a 404 saying "Item not found". */
  function GetItem(db: Store, itemId: string): (r: Lookup)
    reads db
    requires IsItemsDb(db)
    ensures itemId in db.table ==> r == Found(db.table[itemId])
    ensures itemId !in db.table ==> r == NotFound(ItemNotFound)
  {
    db.Get(itemId)
  }

  /**
   The item scenarios of the route tests, followed through the contracts:
   create {"name": "Test Item", "price": 9.99}, read it back by its id,
   look up "nonexistent", and list.
   */
  method ItemRoutesScenario(itemId: string)
    requires itemId != "nonexistent"
  {
    var db := NewItemsDb();
    var body := map["name" := Str("Test Item"), "price" := Number(9.99)];
    var created := CreateItem(db, itemId, body);
    assert created["name"] == Str("Test Item") && created["price"] == Number(9.99);
    assert created[IdField] == Str(itemId);

    var fetched := GetItem(db, itemId);
    assert fetched == Found(created) && fetched.record[IdField] == Str(itemId);

    var missing := GetItem(db, "nonexistent");
    assert missing == NotFound("Item not found");

    var listed := ListItems(db);
    assert listed == [created];
  }
}
