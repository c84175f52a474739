/** The values the property service handles: JavaScript values as JSON produces
    them, the numeric columns as the database returns them, the `Property` row with
    the columns of `backend/config/database.js`, and the multipart request body. */
module Records {
  import opened Wrappers

  /** A JavaScript value that `JSON.parse` can produce, plus `undefined`.
      JSON numbers are modelled as integers. */
  datatype JsValue =
    | Undefined
    | Null
    | Bool(b: bool)
    | Num(n: int)
    | Str(s: string)
    | Arr(items: seq<JsValue>)
    | Obj(fields: map<string, JsValue>)

  /** JavaScript truthiness. */
  predicate Truthy(v: JsValue)
  {
    match v
    case Undefined => false
    case Null => false
    case Bool(b) => b
    case Num(n) => n != 0
    case Str(s) => s != ""
    case Arr(_) => true
    case Obj(_) => true
  }

  /** `v || d` */
  function Or(v: JsValue, d: JsValue): (r: JsValue)
    ensures Truthy(v) ==> r == v
    ensures !Truthy(v) ==> r == d
  {
    if Truthy(v) then v else d
  }

  /** A nullable string that is truthy: present and not empty. */
  predicate Present(x: Option<string>)
  {
    x.Some? && x.value != ""
  }

  /** A numeric column or the result of `parseFloat`/`parseInt`: SQL NULL, NaN, or a
      number (modelled as an integer). */
  datatype Numeric = NullNumber | NaN | Number(value: int)

  /** `parseFloat(x) || 0`: NULL, NaN and zero all count as 0. */
  function NumberOrZero(x: Numeric): int
  {
    match x
    case Number(v) => v
    case _ => 0
  }

  /** Truthiness of a numeric column value. */
  predicate NumericTruthy(x: Numeric)
  {
    x.Number? && x.value != 0
  }

  /** The mapped columns of a property (everything but the key and timestamps). */
  datatype Row = Row(
    name: Option<string>,
    address: Option<string>,
    locality: Option<string>,
    neighbourhood: Option<string>,
    description: Option<string>,
    propertyType: Option<string>,
    subtype: Option<string>,
    category: Option<string>,
    currency: Option<string>,
    propertySource: Option<string>,
    privateNotes: Option<string>,
    price: Numeric,
    totalSurface: Numeric,
    coveredSurface: Numeric,
    latitude: Numeric,
    longitude: Numeric,
    ownerId: Numeric,
    agentId: Numeric,
    colleagueId: Numeric,
    isPublished: bool,
    images: seq<JsValue>,
    pdfUrl: Option<string>,
    videoUrl: Option<string>,
    specificCharacteristics: JsValue,
    amenities: JsValue,
    internalDocsUrls: JsValue)

  /** A stored property: the auto-increment key, the creation time stamp, the columns. */
  datatype Property = Property(id: nat, createdAt: nat, row: Row)

  /** A multipart request body: every text field arrives as a string; a field the
      form did not send is absent (`undefined`). */
  type Body = map<string, string>

  /** `data[key]` */
  function Field(body: Body, key: string): (r: Option<string>)
    ensures r.Some? <==> key in body
    ensures r.Some? ==> r.value == body[key]
  {
    if key in body then Some(body[key]) else None
  }

  /** `data[key]` as a JavaScript value. */
  function FieldValue(body: Body, key: string): (r: JsValue)
    ensures key in body <==> r.Str?
    ensures key !in body ==> r == Undefined
  {
    if key in body then Str(body[key]) else Undefined
  }

  /** The library parsers the service calls, which this model does not define:
      `JSON.parse` (None when it throws), and `parseFloat` and `parseInt` (None for NaN). */
  datatype Parsers = Parsers(
    json: string -> Option<JsValue>,
    float: string -> Option<int>,
    integer: string -> Option<int>)
}
