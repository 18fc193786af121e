/**
 * The user record, the form buffer that edits one, the submit decision, and
 * the outcomes of the REST calls, which the caller supplies.
 */
module Users {

  datatype Option<+T> = None | Some(value: T)

  /**
   * A user record. The id is absent until the backend assigns one; the
   * form buffer uses the same shape (the empty template has no id).
   */
  datatype UserRecord = UserRecord(id: Option<string>, name: string, email: string, phone: string, status: bool)

  /** The template the Add form starts from: empty fields, status active. */
  const EmptyForm := UserRecord(None, "", "", "", true)

  /** `userData.id` is truthy: present and not the empty string. */
  predicate HasId(u: UserRecord)
  {
    u.id.Some? && u.id.value != ""
  }

  /** The names of the form's inputs. */
  const FormFields: set<string> := {"name", "email", "phone", "status"}

  /** What the form input named `field` shows for u; the status select shows "true" or "false". */
  function FieldText(u: UserRecord, field: string): string
  {
    if field == "name" then u.name
    else if field == "email" then u.email
    else if field == "phone" then u.phone
    else if field == "status" then (if u.status then "true" else "false")
    else ""
  }

  /**
   * The buffer after an input named `field` reports `value`: the status
   * select's string is parsed by comparing with "true", every other field
   * stores the string as it is. The id is never touched, and a name that
   * is not one of the form's inputs changes nothing.
   */
  function SetField(u: UserRecord, field: string, value: string): (r: UserRecord)
    ensures r.id == u.id
    ensures field !in FormFields ==> r == u
  {
    if field == "name" then u.(name := value)
    else if field == "email" then u.(email := value)
    else if field == "phone" then u.(phone := value)
    else if field == "status" then u.(status := value == "true")
    else u
  }

  /** A text field reads back what was stored; the status reads back as parsed. */
  lemma SetFieldReadsBack(u: UserRecord, field: string, value: string)
    requires field in FormFields
    ensures field != "status" ==> FieldText(SetField(u, field, value), field) == value
    ensures SetField(u, field, value).status == if field == "status" then value == "true" else u.status
    ensures field == "status" ==>
              FieldText(SetField(u, field, value), field) == if value == "true" then "true" else "false"
  {
  }

  /** Only the named field changes: every other field is kept. */
  lemma SetFieldFrame(u: UserRecord, field: string, value: string, other: string)
    requires other != field
    ensures FieldText(SetField(u, field, value), other) == FieldText(u, other)
  {
  }

  /** Re-entering what a field already shows leaves the buffer as it was. */
  lemma SetFieldShown(u: UserRecord, field: string)
    ensures SetField(u, field, FieldText(u, field)) == u
  {
  }

  /** The required fields are all non-empty. */
  predicate RequiredFilled(u: UserRecord)
  {
    u.name != "" && u.email != "" && u.phone != ""
  }

  /** A request to the REST backend, or none. */
  datatype Request =
    | NoRequest
    | Post(body: UserRecord)
    | Patch(id: string, body: UserRecord)
    | Delete(id: string)

  /** An id as it appears in a request path: a missing id prints as "undefined". */
  function PathId(id: Option<string>): string
  {
    if id.Some? then id.value else "undefined"
  }

  /** The outcome of fetching the whole list. */
  datatype Fetch = Fetched(data: seq<UserRecord>) | FetchFailed

  /**
   * What submitting the buffer asks the backend to do: nothing when a
   * required field is empty, a partial update of the record when the buffer
   * carries an id, a creation otherwise. The whole buffer is the body.
   */
  function SubmitRequest(u: UserRecord): (r: Request)
    ensures r.NoRequest? <==> !RequiredFilled(u)
    ensures r.Patch? <==> RequiredFilled(u) && HasId(u)
    ensures r.Post? <==> RequiredFilled(u) && !HasId(u)
    ensures r.Patch? ==> Some(r.id) == u.id && r.body == u
    ensures r.Post? ==> r.body == u
  {
    if u.name == "" || u.email == "" || u.phone == "" then NoRequest
    else if HasId(u) then Patch(u.id.value, u)
    else Post(u)
  }

  /**
   * Filling in the three text fields of the Add form and submitting creates
   * a record with exactly those fields, no id and status active.
   */
  lemma AddFormCreates(name: string, email: string, phone: string)
    requires name != "" && email != "" && phone != ""
    ensures SubmitRequest(SetField(SetField(SetField(EmptyForm, "name", name), "email", email), "phone", phone))
         == Post(UserRecord(None, name, email, phone, true))
  {
  }
}
