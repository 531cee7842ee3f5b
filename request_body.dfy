/** Reading a string field of a request body, as the server functions do after
    `request.json()` has succeeded: `typeof payload.key === "string" ? payload.key : …`. */
module RequestBody {

  import opened Wrappers
  import opened EmbedToken

  /** The field read as the handlers write it. The outer None stands for the TypeError
      that property access throws when the body is the JSON literal `null`, which no branch
      of the handlers catches; otherwise the inner value is the string, or None when the
      body is not an object or the field is missing or not a string. */
  function FieldAsWritten(body: Json, key: string): (r: Option<Option<string>>)
    ensures r.None? <==> body.JNull?
    ensures r.Some? && r.value.Some? <==> body.JObject? && HasString(body.fields, key)
  {
    match body
    case JNull => None
    case JObject(fields) => if HasString(fields, key) then Some(Some(fields[key].s)) else Some(None)
    case _ => Some(None)
  }

  /** The field as intended: a `null` body has no fields, like every other non-object. */
  function StringField(body: Json, key: string): (r: Option<string>)
    ensures r.Some? <==> body.JObject? && HasString(body.fields, key)
    ensures r.Some? ==> r.value == body.fields[key].s
  {
    if body.JObject? then StringAt(body.fields, key) else None
  }

  /** The two readings differ exactly on the `null` body: there the handler as written
      throws, and the intended reading finds no field. */
  lemma NullBodyThrows(body: Json, key: string)
    ensures FieldAsWritten(body, key) == None <==> body == JNull
    ensures FieldAsWritten(body, key) != None ==> FieldAsWritten(body, key) == Some(StringField(body, key))
    ensures StringField(JNull, key) == None
  {
  }
}
