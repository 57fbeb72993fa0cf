/**
 * The request handlers mounted on `/users`: account creation (POST `/`),
 * login (POST `/login`) and the username list (GET `/usernames`).
 * The HTML filter applied to outgoing text is the parameter `esc`.
 */
module UsersRouter {
  import opened Wrappers
  import opened Http
  import opened UsersService

  /** The object serializeUser builds: no `password` key. */
  datatype UserJson = UserJson(user_id: nat, first_name: string, last_name: string, username: string)

  /** The object serializeUsername builds. */
  datatype UsernameJson = UsernameJson(username: string)

  /** A JSON response body of this router. */
  datatype Body = OneUser(user: UserJson) | Usernames(names: seq<UsernameJson>)

  /** The keys of an account-creation body. */
  datatype UserBody = UserBody(
    first_name: Field<string>,
    last_name: Field<string>,
    username: Field<string>,
    password: Field<string>)

  /** The keys of a login body. */
  datatype LoginBody = LoginBody(username: Field<string>, password: Field<string>)

  const LoginMessage := "Request body must contain 'username' and 'password'"
  const UnknownUserMessage := "User doesn't exist"
  const WrongPasswordMessage := "Incorrect password"

  // ---------------------------------------------------------------------
  // Serializers
  // ---------------------------------------------------------------------

  /** The id passes through; the three name columns go through the filter. */
  function SerializeUser(u: User, esc: string -> string): (r: UserJson)
    ensures r.user_id == u.user_id
    ensures r.first_name == esc(u.first_name) && r.last_name == esc(u.last_name) &&
            r.username == esc(u.username)
  {
    UserJson(u.user_id, esc(u.first_name), esc(u.last_name), esc(u.username))
  }

  /** The serialized user does not depend on the stored password at all. */
  lemma SerializeUserIgnoresPassword(u: User, other: string, esc: string -> string)
    ensures SerializeUser(u.(password := other), esc) == SerializeUser(u, esc)
  {
  }

  function SerializeUsername(row: UsernameRow, esc: string -> string): (r: UsernameJson)
    ensures r.username == esc(row.username)
  {
    UsernameJson(esc(row.username))
  }

  /** `usernames.map(serializeUsername)`. */
  function SerializeUsernames(rows: seq<UsernameRow>, esc: string -> string): (r: seq<UsernameJson>)
    ensures |r| == |rows|
    ensures forall i :: 0 <= i < |rows| ==> r[i] == SerializeUsername(rows[i], esc)
  {
    if rows == [] then [] else [SerializeUsername(rows[0], esc)] + SerializeUsernames(rows[1..], esc)
  }

  // ---------------------------------------------------------------------
  // POST /
  // ---------------------------------------------------------------------

  /** `Object.entries(newUser)`: the four keys in declaration order. */
  function RequiredEntries(b: UserBody): seq<Entry> {
    [Entry("first_name", b.first_name.IsNullish()),
     Entry("last_name", b.last_name.IsNullish()),
     Entry("username", b.username.IsNullish()),
     Entry("password", b.password.IsNullish())]
  }

  predicate HasRequired(b: UserBody) {
    b.first_name.Given? && b.last_name.Given? && b.username.Given? && b.password.Given?
  }

  /**
   * The key the create handler reports: the first of first_name, last_name,
   * username, password that is null or undefined.
   */
  function MissingUserKey(b: UserBody): (r: Option<string>)
    ensures r.None? <==> HasRequired(b)
    ensures r == Some("first_name") <==> b.first_name.IsNullish()
    ensures r == Some("last_name") <==> b.first_name.Given? && b.last_name.IsNullish()
    ensures r == Some("username") <==> b.first_name.Given? && b.last_name.Given? && b.username.IsNullish()
    ensures r == Some("password") <==>
      b.first_name.Given? && b.last_name.Given? && b.username.Given? && b.password.IsNullish()
  {
    var e := RequiredEntries(b);
    FirstNullishUnfold(e);
    FirstNullishUnfold(e[1..]);
    FirstNullishUnfold(e[2..]);
    FirstNullishUnfold(e[3..]);
    assert e[3..][1..] == [];
    FirstNullish(e)
  }

  function NewUserOf(b: UserBody): NewUser
    requires HasRequired(b)
  {
    NewUser(b.first_name.value, b.last_name.value, b.username.value, b.password.value)
  }

  /**
   * POST `/`: 400 naming the first missing key, with the table untouched;
   * otherwise one row is inserted and the response is 201 with the Location
   * of the new row and the serialized row as its body.
   */
  method PostUser(db: UsersTable, b: UserBody, originalUrl: string, esc: string -> string)
    returns (res: Response<Body>)
    requires db.Valid()
    modifies db
    ensures db.Valid()
    ensures MissingUserKey(b).Some? ==>
      res == Fail(400, MissingMessage(MissingUserKey(b).value)) &&
      db.rows == old(db.rows) && db.nextId == old(db.nextId)
    ensures MissingUserKey(b).None? ==>
      var row := StoredUser(NewUserOf(b), old(db.nextId));
      db.rows == old(db.rows) + [row] && db.nextId == old(db.nextId) + 1 &&
      res == Response(201, Json(OneUser(SerializeUser(row, esc))), Some(JoinLocation(originalUrl, row.user_id)))
  {
    var missing := FirstMissing(RequiredEntries(b));
    assert missing == MissingUserKey(b);
    if missing.Some? {
      return Fail(400, MissingMessage(missing.value));
    }
    var user := db.InsertUser(NewUserOf(b));
    res := Response(201, Json(OneUser(SerializeUser(user, esc))), Some(JoinLocation(originalUrl, user.user_id)));
  }

  // ---------------------------------------------------------------------
  // POST /login
  // ---------------------------------------------------------------------

  /**
   * POST `/login`, in this order: 400 when either value is falsy, before any
   * lookup; 404 when no row has the username; 401 when the first such row's
   * stored password differs from the one supplied; else 200 with that row,
   * serialized.
   */
  function Login(rows: seq<User>, b: LoginBody, esc: string -> string): (res: Response<Body>)
    ensures !(Truthy(b.username) && Truthy(b.password)) <==> res == Fail(400, LoginMessage)
    ensures res == Fail(404, UnknownUserMessage) <==>
      Truthy(b.username) && Truthy(b.password) &&
      forall i :: 0 <= i < |rows| ==> rows[i].username != b.username.value
    ensures res == Fail(401, WrongPasswordMessage) <==>
      Truthy(b.username) && Truthy(b.password) &&
      exists i :: 0 <= i < |rows| && rows[i].username == b.username.value &&
        rows[i].password != b.password.value && forall j :: 0 <= j < i ==> rows[j].username != b.username.value
    ensures res.status == 200 <==>
      Truthy(b.username) && Truthy(b.password) &&
      exists i :: 0 <= i < |rows| && rows[i].username == b.username.value &&
        rows[i].password == b.password.value && forall j :: 0 <= j < i ==> rows[j].username != b.username.value
    ensures res.status == 200 ==> res == Ok(OneUser(SerializeUser(GetUserByUsername(rows, b.username.value).value, esc)))
  {
    if !Truthy(b.username) || !Truthy(b.password) then
      Fail(400, LoginMessage)
    else
      match GetUserByUsername(rows, b.username.value)
      case None => Fail(404, UnknownUserMessage)
      case Some(u) =>
        if u.password != b.password.value then Fail(401, WrongPasswordMessage)
        else Ok(OneUser(SerializeUser(u, esc)))
  }

  /**
   * An account created under a username nobody has yet can log in with the
   * credentials it was created with, and the login answers with the created
   * row, serialized.
   */
  lemma LoginAfterSignup(rows: seq<User>, nu: NewUser, id: nat, esc: string -> string)
    requires forall i :: 0 <= i < |rows| ==> rows[i].username != nu.username
    requires nu.username != "" && nu.password != ""
    ensures Login(rows + [StoredUser(nu, id)], LoginBody(Given(nu.username), Given(nu.password)), esc) ==
      Ok(OneUser(SerializeUser(StoredUser(nu, id), esc)))
  {
    LookupAfterInsert(rows, StoredUser(nu, id));
  }

  // ---------------------------------------------------------------------
  // GET /usernames
  // ---------------------------------------------------------------------

  /** GET `/usernames`: every row's username, filtered, in storage order; `[]` on an empty table. */
  function ListUsernames(rows: seq<User>, esc: string -> string): (res: Response<Body>)
    ensures res.status == 200 && res.location.None? && res.body.Json? && res.body.value.Usernames?
    ensures var names := res.body.value.names;
      |names| == |rows| && forall i :: 0 <= i < |rows| ==> names[i] == UsernameJson(esc(rows[i].username))
  {
    Ok(Usernames(SerializeUsernames(GetAllUsernames(rows), esc)))
  }
}
