/**
 The User CRUD endpoint handler. Each of its five actions takes the request
 and the current table and yields a response and the table after the
 request. Request validation is an input (the framework's model state), not
 something the handler computes.
 */
module UserController {
  import opened UserTable
  import opened UserStore

  /** One validation error recorded against a field of the request body. */
  datatype FieldError = FieldError(field: string, message: string)

  /** The validation result the framework attaches to a request. */
  datatype ModelState = ModelState(errors: seq<FieldError>) {
    predicate IsValid() {
      |errors| == 0
    }
  }

  datatype Response =
    | Ok(body: User)                              // 200 with one record
    | OkList(items: seq<User>)                    // 200 with every record
    | Created(location: Int32, created: User)     // 201, pointing at Get(location)
    | BadRequestErrors(errors: seq<FieldError>)   // 400 carrying the model state
    | BadRequest                                  // 400 without a body
    | NotFound                                    // 404
    | StoreError(failure: StoreFailure)           // the save threw: a server error

  /** The HTTP status each response is sent with; a store failure escapes
      the action as an exception, which the host answers with 500. */
  function StatusCode(r: Response): (code: int)
    ensures code == 200 <==> r.Ok? || r.OkList?
    ensures code == 201 <==> r.Created?
    ensures code == 400 <==> r.BadRequestErrors? || r.BadRequest?
    ensures code == 404 <==> r.NotFound?
    ensures code == 500 <==> r.StoreError?
  {
    match r
    case Ok(_) => 200
    case OkList(_) => 200
    case Created(_, _) => 201
    case BadRequestErrors(_) => 400
    case BadRequest => 400
    case NotFound => 404
    case StoreError(_) => 500
  }

  datatype Outcome = Outcome(response: Response, store: Store)

  /** GET /User: lists every record, in ascending key order. */
  function GetAll(s: Store): (o: Outcome)
    ensures o.store == s
    ensures o.response.OkList?
    ensures |o.response.items| == |s.rows|
    ensures Valid(s) ==>
      forall i, j :: 0 <= i < j < |o.response.items| ==> o.response.items[i].id < o.response.items[j].id
    ensures Valid(s) ==>
      forall u :: u in o.response.items <==> u.id in s.rows && s.rows[u.id] == u
  {
    Outcome(OkList(Listing(s)), s)
  }

  /** GET /User/{id}. */
  function Get(s: Store, id: Int32): (o: Outcome)
    ensures o.store == s
    ensures o.response.NotFound? <==> id !in s.rows
    ensures o.response.Ok? <==> id in s.rows
    ensures o.response.Ok? ==> o.response.body == s.rows[id]
    ensures Valid(s) && o.response.Ok? ==> o.response.body.id == id
  {
    if id !in s.rows then Outcome(NotFound, s)
    else Outcome(Ok(s.rows[id]), s)
  }

  /** POST /User: validation first, then an insert of the body as given. */
  function Post(s: Store, ms: ModelState, user: User): (o: Outcome)
    ensures !ms.IsValid() ==> o == Outcome(BadRequestErrors(ms.errors), s)
    ensures o.response.Created? || o.response.BadRequestErrors? || o.response.StoreError?
    ensures !o.response.Created? ==> o.store == s
    ensures ms.IsValid() && !o.response.Created? ==>
      && o.response.StoreError?
      && (o.response.failure.DuplicateKey? || (o.response.failure.KeysExhausted? && user.id == UnsetId))
    ensures o.response.Created? ==>
      && ms.IsValid()
      && o.response.location == o.response.created.id
      && o.response.created == user.(id := o.response.location)
      && o.response.location !in s.rows
      && o.store.rows == s.rows[o.response.location := o.response.created]
      && |o.store.rows| == |s.rows| + 1
    ensures o.response.Created? && user.id != UnsetId ==> o.response.location == user.id
    ensures o.response.Created? && user.id == UnsetId ==> o.response.location > s.lastId
    ensures Valid(s) && ms.IsValid() ==>
      (o.response.Created? <==> if user.id == UnsetId then s.lastId < MaxInt32 else user.id !in s.rows)
    ensures Valid(s) ==> Valid(o.store)
    ensures o.response.Created? ==> o.response.location <= o.store.lastId
    ensures s.lastId <= o.store.lastId
  {
    if !ms.IsValid() then Outcome(BadRequestErrors(ms.errors), s)
    else
      match Insert(s, user)
      case Failed(f) => Outcome(StoreError(f), s)
      case Committed(s', row) => Outcome(Created(row.id, row), s')
  }

  /** PUT /User/{id}: validation, then the identity check, then an update
      of the existing row. An update of a row that does not exist fails in
      the store; it never creates the row. */
  function Put(s: Store, ms: ModelState, id: Int32, user: User): (o: Outcome)
    ensures !ms.IsValid() ==> o == Outcome(BadRequestErrors(ms.errors), s)
    ensures ms.IsValid() && id != user.id ==> o == Outcome(BadRequest, s)
    ensures ms.IsValid() && id == user.id && id !in s.rows ==> o == Outcome(StoreError(RowMissing(id)), s)
    ensures o.response.Ok? <==> ms.IsValid() && id == user.id && id in s.rows
    ensures o.response.Ok? ==>
      && o.response.body == user
      && o.store.rows == s.rows[id := user]
      && o.store.rows.Keys == s.rows.Keys
      && o.store.lastId == s.lastId
    ensures !o.response.Ok? ==> o.store == s
    ensures Valid(s) ==> Valid(o.store)
  {
    if !ms.IsValid() then Outcome(BadRequestErrors(ms.errors), s)
    else if id != user.id then Outcome(BadRequest, s)
    else
      match Update(s, user)
      case Failed(f) => Outcome(StoreError(f), s)
      case Committed(s', row) => Outcome(Ok(row), s')
  }

  /** DELETE /User/{id}: answers with the record as it was before removal. */
  function Delete(s: Store, id: Int32): (o: Outcome)
    ensures id !in s.rows ==> o == Outcome(NotFound, s)
    ensures id in s.rows ==>
      && o.response == Ok(s.rows[id])
      && o.store.rows.Keys == s.rows.Keys - {id}
      && (forall k :: k in o.store.rows ==> o.store.rows[k] == s.rows[k])
      && o.store.lastId == s.lastId
    ensures Valid(s) ==> Valid(o.store)
  {
    if id !in s.rows then Outcome(NotFound, s)
    else
      var user := s.rows[id];
      Outcome(Ok(user), Remove(s, id))
  }

  /** Validation failure is reported before, and instead of, an identity
      mismatch or a missing row. */
  lemma PutValidationFirst(s: Store, ms: ModelState, id: Int32, user: User)
    requires !ms.IsValid()
    ensures Put(s, ms, id, user).response == BadRequestErrors(ms.errors)
    ensures StatusCode(Put(s, ms, id, user).response) == 400
    ensures Put(s, ms, id, user).store == s
  {
  }

  /** With valid input, an identity mismatch is a bare 400 whether or not
      a row exists at the path id. */
  lemma PutMismatchIgnoresStore(s: Store, ms: ModelState, id: Int32, user: User)
    requires ms.IsValid() && id != user.id
    ensures Put(s, ms, id, user).response == BadRequest
    ensures StatusCode(Put(s, ms, id, user).response) == 400
    ensures Put(s, ms, id, user).store == s
  {
  }

  /** A record read back after a successful create equals the created one. */
  lemma PostThenGet(s: Store, ms: ModelState, user: User)
    requires Post(s, ms, user).response.Created?
    ensures
      var created := Post(s, ms, user).response;
      Get(Post(s, ms, user).store, created.location).response == Ok(created.created)
  {
  }

  /** Creates touch no existing record. */
  lemma PostKeepsOthers(s: Store, ms: ModelState, user: User, k: Int32)
    requires k in s.rows
    ensures k in Post(s, ms, user).store.rows
    ensures Post(s, ms, user).store.rows[k] == s.rows[k]
  {
  }

  /** The first create with an unset key on an empty table yields key 1. */
  lemma FirstPostGetsOne(ms: ModelState, user: User)
    requires ms.IsValid() && user.id == UnsetId
    ensures Post(Empty, ms, user).response == Created(1, user.(id := 1))
    ensures StatusCode(Post(Empty, ms, user).response) == 201
  {
  }

  /** After a successful update, reading the key returns the body, and every
      other key reads as before. */
  lemma PutThenGet(s: Store, ms: ModelState, id: Int32, user: User, k: Int32)
    requires Put(s, ms, id, user).response.Ok?
    ensures Get(Put(s, ms, id, user).store, id).response == Ok(user)
    ensures k != id ==> Get(Put(s, ms, id, user).store, k) == Outcome(Get(s, k).response, Put(s, ms, id, user).store)
  {
  }

  /** The update replaces the whole record: a field the body leaves out is
      reset to its default, not kept from the stored row. */
  lemma PutResetsOmittedFields(s: Store, ms: ModelState, id: Int32, init: UserInit)
    requires Put(s, ms, id, Build(init)).response.Ok?
    requires init.password.None?
    ensures Put(s, ms, id, Build(init)).store.rows[id].password == DefaultPassword
  {
  }

  /** Deleting twice: the second delete of the same key finds nothing. */
  lemma DeleteTwice(s: Store, id: Int32)
    ensures Delete(Delete(s, id).store, id).response == NotFound
    ensures Delete(Delete(s, id).store, id).store == Delete(s, id).store
  {
  }

  /** After a successful delete the key reads as not found. */
  lemma DeleteThenGet(s: Store, id: Int32)
    ensures Get(Delete(s, id).store, id).response == NotFound
  {
  }
}
