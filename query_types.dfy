/** The values the query view works with: filters, result documents, the page cursor
    and the request that the view hands to the query service. */
module QueryTypes {

  datatype Option<+T> = None | Some(value: T)

  /** A filter descriptor `{field, operation, value}`. The view compares filters by
      object identity (`indexOf`); `id` stands for that identity. */
  datatype Filter = Filter(id: nat, field: string, operation: string, value: Option<string>)

  /** A result row (a database document). `ref` stands for the object's identity, so two
      rows with equal contents received as two objects stay distinct; `fields` maps each
      property name to its value converted to a string. */
  datatype Doc = Doc(ref: nat, fields: map<string, string>)

  /** The pagination cursor (`pageIndex`, `pageSize`, `length`). */
  datatype Page = Page(pageIndex: int, pageSize: int, length: int)

  /** What `executeQuery` sends to the service: the selected filters and the page
      cursor as they were when the request was made. */
  datatype QueryRequest = QueryRequest(filters: seq<Filter>, page: Page)

  /** `each[field]` converted to text: a property a document lacks reads as
      `undefined`, which string conversion renders as "undefined". */
  function FieldValue(d: Doc, field: string): (v: string)
    ensures field in d.fields ==> v == d.fields[field]
    ensures field !in d.fields ==> v == "undefined"
  {
    if field in d.fields then d.fields[field] else "undefined"
  }

  /** The values of one field over a list of rows, in row order. */
  function FieldValues(rows: seq<Doc>, field: string): (vs: seq<string>)
    ensures |vs| == |rows|
    ensures forall i :: 0 <= i < |rows| ==> vs[i] == FieldValue(rows[i], field)
  {
    seq(|rows|, i requires 0 <= i < |rows| => FieldValue(rows[i], field))
  }
}
