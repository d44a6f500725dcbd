/**
 The in-memory resource store behind both endpoint sets: a table from
 generated id to record, listed in insertion order, with a not-found
 label that distinguishes one resource kind from the other.
 */
module ResourceStore {
  import opened Records

  /** The outcome of a lookup by id; NotFound carries the 404 detail text. */
  datatype Lookup = Found(record: Record) | NotFound(detail: string)

  /** The query defaults of both list endpoints: `skip: int = 0, limit: int = 10`. */
  const DefaultSkip: nat := 0
  const DefaultLimit: nat := 10

  function Min(a: int, b: int): int { if a <= b then a else b }
  function Max(a: int, b: int): int { if a <= b then b else a }

  /** No key occurs twice in `keys`. */
  ghost predicate Distinct(keys: seq<string>)
  {
    forall i, j :: 0 <= i < j < |keys| ==> keys[i] != keys[j]
  }

  /** A duplicate-free sequence has as many elements as the set of its elements. */
  lemma {:induction false} DistinctCardinality(keys: seq<string>)
    requires Distinct(keys)
    ensures |set k | k in keys| == |keys|
  {
    if keys != [] {
      var rest := keys[1..];
      assert Distinct(rest) by {
        forall i, j | 0 <= i < j < |rest| ensures rest[i] != rest[j] {
          assert rest[i] == keys[i + 1] && rest[j] == keys[j + 1];
        }
      }
      DistinctCardinality(rest);
      assert keys[0] !in rest by {
        forall i | 0 <= i < |rest| ensures rest[i] != keys[0] {
          assert rest[i] == keys[i + 1];
        }
      }
      assert (set k | k in keys) == (set k | k in rest) + {keys[0]} by {
        assert keys == [keys[0]] + rest;
      }
    }
  }

  /**
   Python's `s[start:stop]` for non-negative bounds: both bounds are
   clamped to the length, and a stop before the start gives nothing.
   */
  function Slice<T>(s: seq<T>, start: nat, stop: nat): (r: seq<T>)
    ensures |r| == Max(0, Min(stop, |s|) - Min(start, |s|))
    ensures forall i :: 0 <= i < |r| ==> start + i < |s| && r[i] == s[start + i]
  {
    var lo := Min(start, |s|);
    var hi := Min(stop, |s|);
    if hi <= lo then [] else s[lo..hi]
  }

  /** A slice that ends inside `s` does not see anything appended after `s`. */
  lemma SliceOfExtension<T>(s: seq<T>, t: seq<T>, start: nat, stop: nat)
    requires stop <= |s|
    ensures Slice(s + t, start, stop) == Slice(s, start, stop)
  {
  }

  /** The records stored under `keys`, in the order of `keys`. */
  function ValuesOf(table: map<string, Record>, keys: seq<string>): (r: seq<Record>)
    requires forall i :: 0 <= i < |keys| ==> keys[i] in table
    ensures |r| == |keys|
    ensures forall i :: 0 <= i < |r| ==> r[i] == table[keys[i]]
  {
    if keys == [] then [] else [table[keys[0]]] + ValuesOf(table, keys[1..])
  }

  /** Inserting a fresh key at the end keeps `keys` an exact, duplicate-free listing of the table, and appends its record to the values. */
  lemma InsertPreservesOrder(table: map<string, Record>, keys: seq<string>, id: string, rec: Record)
    requires Distinct(keys) && (forall k :: k in table <==> k in keys)
    requires id !in table
    ensures Distinct(keys + [id])
    ensures forall k :: k in table[id := rec] <==> k in keys + [id]
    ensures ValuesOf(table[id := rec], keys + [id]) == ValuesOf(table, keys) + [rec]
  {
  }

  /**
   One resource table. `table` is the dictionary; `order` is the order in
   which its keys were inserted, which is the order its values are listed in.
   */
  class Store {
    const notFoundLabel: string
    var table: map<string, Record>
    var order: seq<string>

    /** `order` lists every key of `table` exactly once, and every stored record has an "id" field. */
    ghost predicate Valid()
      reads this
    {
      && Distinct(order)
      && (forall k :: k in table <==> k in order)
      && (forall k :: k in table ==> IdField in table[k])
    }

    /** An empty table whose lookups fail with `notFoundLabel`. */
    constructor (notFoundLabel: string)
      ensures Valid()
      ensures this.notFoundLabel == notFoundLabel
      ensures table == map[] && order == []
    {
      this.notFoundLabel := notFoundLabel;
      table := map[];
      order := [];
    }

    /** The number of stored records. */
    function Size(): (n: nat)
      reads this
      requires Valid()
      ensures n == |order|
    {
      assert table.Keys == set k | k in order;
      DistinctCardinality(order);
      |table|
    }

    /** `list(db.values())`: every stored record, oldest first. */
    function Values(): (r: seq<Record>)
      reads this
      requires Valid()
      ensures |r| == Size()
      ensures forall i :: 0 <= i < |r| ==> r[i] == table[order[i]]
    {
      ValuesOf(table, order)
    }

    /** `list(db.values())[skip:skip + limit]`. */
    function List(skip: nat, limit: nat): (r: seq<Record>)
      reads this
      requires Valid()
      ensures |r| == Min(limit, Max(0, Size() - skip))
      ensures forall i :: 0 <= i < |r| ==> skip + i < |order| && r[i] == table[order[skip + i]]
    {
      Slice(Values(), skip, skip + limit)
    }

    /** Exact-key lookup; an absent key yields NotFound with this store's notFoundLabel. */
    function Get(id: string): (r: Lookup)
      reads this
      requires Valid()
      ensures r.Found? <==> id in order
      ensures r.Found? ==> r.record == table[id] && IdField in r.record
      ensures r.NotFound? ==> r.detail == notFoundLabel
    {
      if id !in table then NotFound(notFoundLabel) else Found(table[id])
    }

    /**
     Stores `{"id": id, **fields}` under the fresh key `id` and returns it.
     The generated id is a parameter here, fresh by precondition.
     */
    method Create(id: string, fields: Record) returns (rec: Record)
      requires Valid()
      requires id !in table
      modifies this
      ensures Valid()
      ensures rec == WithId(id, fields)
      ensures table == old(table)[id := rec]
      ensures order == old(order) + [id]
      ensures Size() == old(Size()) + 1
      ensures Values() == old(Values()) + [rec]
      ensures Get(id) == Found(rec)
    {
      rec := WithId(id, fields);
      InsertPreservesOrder(table, order, id, rec);
      table := table[id := rec];
      order := order + [id];
    }
  }

  /**
   A client's own "id" that differs from the generated one is what the
   stored record carries, while the table key stays the generated id.
   */
  lemma ClientIdWins(table: map<string, Record>, id: string, fields: Record)
    requires IdField in fields && fields[IdField] != Str(id)
    ensures var t := table[id := WithId(id, fields)];
      id in t && t[id][IdField] == fields[IdField] && t[id][IdField] != Str(id)
  {
  }

  /** Every record a listing returns carries an "id" field. */
  lemma ListedRecordsHaveId(s: Store, skip: nat, limit: nat)
    requires s.Valid()
    ensures forall r :: r in s.List(skip, limit) ==> IdField in r
  {
  }

  /** Listing past the last record, in particular listing an empty store, gives nothing. */
  lemma ListPastEnd(s: Store, skip: nat, limit: nat)
    requires s.Valid()
    requires skip >= s.Size()
    ensures s.List(skip, limit) == []
  {
  }

  /** The record at position `i` of the listing is what a lookup of the `i`-th inserted key yields. */
  lemma GetAgreesWithList(s: Store, i: nat)
    requires s.Valid()
    requires i < s.Size()
    ensures |s.List(i, 1)| == 1
    ensures s.Get(s.order[i]) == Found(s.List(i, 1)[0])
  {
  }
}
