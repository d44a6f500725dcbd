/**
 Records as the resource endpoints see them: an open-ended JSON object,
 a mapping from field name to a JSON value, with no fixed schema.
 */
module Records {

  /** A JSON value as the request body may carry it. */
  datatype Value =
    | Null
    | Bool(b: bool)
    | Number(x: real)
    | Str(s: string)
    | Array(elems: seq<Value>)
    | Object(members: map<string, Value>)

  /** A stored record, or the fields a client sends to create one. */
  type Record = map<string, Value>

  /** The field the server sets on every created record. */
  const IdField: string := "id"

  /**
   The record `{"id": id, **fields}`: the generated id first, then every
   client field. Later keys win, so a client-supplied "id" overrides the
   generated one.
   */
  function WithId(id: string, fields: Record): (r: Record)
    ensures r.Keys == fields.Keys + {IdField}
    ensures forall k :: k in fields ==> r[k] == fields[k]
    ensures IdField !in fields ==> r[IdField] == Str(id)
    ensures IdField in fields ==> r[IdField] == fields[IdField]
  {
    map[IdField := Str(id)] + fields
  }

  /** The record carries the generated id exactly when the client sent no id of its own, or sent that same one. */
  lemma WithIdCarriesId(id: string, fields: Record)
    ensures WithId(id, fields)[IdField] == Str(id)
        <==> (IdField !in fields || fields[IdField] == Str(id))
  {
  }
}
