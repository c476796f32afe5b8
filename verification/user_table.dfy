/**
 The persisted User record (`UserTable`): its key, its text fields and the
 default values that the record's property initialisers supply whenever a
 caller, an object initialiser or a deserialised request body, leaves a
 field out.
 */
module UserTable {

  const MinInt32: int := -0x8000_0000
  const MaxInt32: int := 0x7FFF_FFFF

  /** The range of C#'s `int`, the type of the record key and of route ids. */
  type Int32 = x: int | MinInt32 <= x <= MaxInt32

  datatype Option<+T> = None | Some(value: T)

  /** The value of `Id` when nobody sets it: the CLR default of `int`. The
      persistence layer reads this value as "generate a key for me". */
  const UnsetId: Int32 := 0

  const DefaultPassword: string := "password"
  const DefaultEmail: string := "email@email.com"
  const DefaultToken: string := ""
  const DefaultRole: string := "S"

  /** One row of the user table; `id` is the primary key. */
  datatype User = User(
    id: Int32,
    name: string,
    password: string,
    email: string,
    token: string,
    role: string)

  /** The properties a caller actually supplies when building a record.
      `name` has no initialiser in the record, so it is always supplied here. */
  datatype UserInit = UserInit(
    id: Option<Int32>,
    name: string,
    password: Option<string>,
    email: Option<string>,
    token: Option<string>,
    role: Option<string>)

  function OrElse<T>(o: Option<T>, default: T): T
  {
    match o
    case Some(v) => v
    case None => default
  }

  /** Builds a record: every supplied property overrides its initialiser,
      and every absent one keeps it. */
  function Build(init: UserInit): (u: User)
    ensures u.name == init.name
    ensures u.id == (if init.id.Some? then init.id.value else 0)
    ensures u.password == (if init.password.Some? then init.password.value else "password")
    ensures u.email == (if init.email.Some? then init.email.value else "email@email.com")
    ensures u.token == (if init.token.Some? then init.token.value else "")
    ensures u.role == (if init.role.Some? then init.role.value else "S")
  {
    User(
      OrElse(init.id, UnsetId),
      init.name,
      OrElse(init.password, DefaultPassword),
      OrElse(init.email, DefaultEmail),
      OrElse(init.token, DefaultToken),
      OrElse(init.role, DefaultRole))
  }

  /** The initialiser `new UserTable { Name = name }`. */
  function NameOnly(name: string): UserInit
  {
    UserInit(None, name, None, None, None, None)
  }

  /** The initialiser that supplies every property of `u`. */
  function Supplied(u: User): UserInit
  {
    UserInit(Some(u.id), u.name, Some(u.password), Some(u.email), Some(u.token), Some(u.role))
  }

  /** A record built from a name alone carries the unset key and the four
      documented defaults. */
  lemma NameOnlyDefaults(name: string)
    ensures Build(NameOnly(name)).id == 0
    ensures Build(NameOnly(name)).name == name
    ensures Build(NameOnly(name)).password == "password"
    ensures Build(NameOnly(name)).email == "email@email.com"
    ensures Build(NameOnly(name)).token == ""
    ensures Build(NameOnly(name)).role == "S"
  {
  }

  /** Supplying every property of a record rebuilds exactly that record. */
  lemma BuildSuppliedRoundTrip(u: User)
    ensures Build(Supplied(u)) == u
  {
  }
}
