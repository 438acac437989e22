/** JavaScript values as the services see them: request bodies decoded by the
    HTTP layer, and the documents carried on the event channel. */
module JsValues {
  import opened Wrappers

  /** A JSON document. Numbers are kept as reals; objects as maps from
      property names to values (property order is not modelled). */
  datatype Json =
    | JNull
    | JBool(b: bool)
    | JNum(n: real)
    | JStr(s: string)
    | JArr(items: seq<Json>)
    | JObj(fields: map<string, Json>)

  /** JavaScript truthiness; `None` is `undefined`. The falsy values are
      `undefined`, `null`, `false`, `0` and the empty string. */
  predicate Truthy(v: Option<Json>) {
    match v
    case None => false
    case Some(JNull) => false
    case Some(JBool(b)) => b
    case Some(JNum(n)) => n != 0.0
    case Some(JStr(s)) => s != ""
    case Some(_) => true
  }

  /** Property read `v.name` on a value that is not `null`: only an object
      that has the property yields something, everything else is `undefined`. */
  function Get(v: Json, name: string): (r: Option<Json>)
    ensures r.Some? <==> v.JObj? && name in v.fields
    ensures r.Some? ==> r.value == v.fields[name]
  {
    match v
    case JObj(fields) => if name in fields then Some(fields[name]) else None
    case _ => None
  }

  /** A piece of text on the wire or in a TEXT column. Texts are taken up to
      JSON equivalence: either a text is the serialization of a document, or
      it is not valid JSON at all (an empty buffer, "invalid json", ...).
      `raw` of `Unparseable` is never valid JSON: valid text is `Serialized`. */
  datatype Text = Serialized(doc: Json) | Unparseable(raw: string)

  /** `JSON.stringify` of a document. */
  function Stringify(j: Json): (t: Text)
    ensures Parse(t) == Some(j)
  {
    Serialized(j)
  }

  /** `JSON.stringify` of a possibly `undefined` value: `undefined` has no
      serialization and stays `undefined`. */
  function StringifyValue(v: Option<Json>): (t: Option<Text>)
    ensures t.None? <==> v.None?
    ensures t.Some? ==> Parse(t.value) == v
  {
    match v
    case None => None
    case Some(j) => Some(Stringify(j))
  }

  /** `JSON.parse`, partial: None is the SyntaxError it throws. */
  function Parse(t: Text): (r: Option<Json>)
    ensures r.None? <==> t.Unparseable?
  {
    match t
    case Serialized(doc) => Some(doc)
    case Unparseable(_) => None
  }

  /** The request-validation test shared by both HTTP handlers,
      `!credential || !credential.userid`: a userid is accepted only from a
      truthy body whose `userid` property is itself truthy. */
  function BodyUserid(body: Option<Json>): (r: Option<Json>)
    // rejected: no body, a body that is not an object (null, false, 0, "",
    // any array, number or string), no userid property, or a userid that is
    // null, false, 0 or ""
    ensures r.None? <==>
              || body.None? || !body.value.JObj? || "userid" !in body.value.fields
              || body.value.fields["userid"] in {JNull, JBool(false), JNum(0.0), JStr("")}
    ensures r.Some? ==> r.value == body.value.fields["userid"]
  {
    if !Truthy(body) then None
    else
      var userid := Get(body.value, "userid");
      if Truthy(userid) then userid else None
  }
}
