/**
 * POST /api/auth/login: checks that both credentials were given, looks the
 * user up by name, compares the stored password with the one sent, and on
 * success answers with the user's row minus its password.
 */
module Login {
  import opened Js

  /** A row of `users`, column name to value. */
  type Row = map<string, JsonValue>

  /** The request body; `Malformed` is a body that is not JSON. */
  datatype LoginBody = Malformed | LoginBody(username: JsonValue, password: JsonValue)

  datatype LoginError = CredentialsRequired | InvalidCredentials | InternalError

  function ErrorStatus(e: LoginError): int {
    match e
    case CredentialsRequired => 400
    case InvalidCredentials => 401
    case InternalError => 500
  }

  /** The `error` text of each failure; an unknown name and a wrong password share one. */
  function ErrorMessage(e: LoginError): string {
    match e
    case CredentialsRequired => "Username and password are required"
    case InvalidCredentials => "Invalid username or password"
    case InternalError => "Internal server error"
  }

  /** The answer: 200 with the user, or an error. */
  function Status(r: Result<Row, LoginError>): int {
    match r
    case Ok(_) => 200
    case Err(e) => ErrorStatus(e)
  }

  /** A column of a row, `undefined` when the row has no such column. */
  function Get(row: Row, column: string): JsonValue {
    if column in row then row[column] else Undefined
  }

  /**
   * The text the query parameter is sent as: a string as itself, a number
   * in decimal, a boolean as `true`/`false`. Arrays and objects are not
   * modelled and match no row.
   */
  function ParamText(v: JsonValue): Option<string> {
    match v
    case Str(s) => Some(s)
    case Num(n) => Some(ShowInt(n))
    case Bool(b) => Some(if b then "true" else "false")
    case _ => None
  }

  /** `SELECT * FROM users WHERE username = $1`, taking the first matching row. */
  function FindUser(users: seq<Row>, username: JsonValue): (r: Option<Row>)
    ensures r.Some? <==> (ParamText(username).Some? &&
      exists i :: 0 <= i < |users| && Get(users[i], "username") == Str(ParamText(username).value))
    ensures r.Some? ==>
      exists i :: 0 <= i < |users| && users[i] == r.value &&
        Get(users[i], "username") == Str(ParamText(username).value) &&
        forall j :: 0 <= j < i ==> Get(users[j], "username") != Str(ParamText(username).value)
    decreases |users|
  {
    if ParamText(username).None? || users == [] then None
    else if Get(users[0], "username") == Str(ParamText(username).value) then Some(users[0])
    else
      var r := FindUser(users[1..], username);
      assert forall i :: 0 < i < |users| ==> users[i] == users[1..][i - 1];
      if r.Some? then
        var i :| 0 <= i < |users[1..]| && users[1..][i] == r.value &&
          Get(users[1..][i], "username") == Str(ParamText(username).value) &&
          forall j :: 0 <= j < i ==> Get(users[1..][j], "username") != Str(ParamText(username).value);
        assert users[i + 1] == r.value;
        r
      else r
  }

  /** `const { password: _, ...rest } = user`. */
  function WithoutPassword(user: Row): (r: Row)
    ensures "password" !in r
    ensures r.Keys == user.Keys - {"password"}
    ensures forall k :: k in r ==> r[k] == user[k]
  {
    map k | k in user && k != "password" :: user[k]
  }

  /** The handler, given the `users` table. */
  function HandleLogin(body: LoginBody, users: seq<Row>): Result<Row, LoginError> {
    if body.Malformed? then Err(InternalError)
    else if !Truthy(body.username) || !Truthy(body.password) then Err(CredentialsRequired)
    else
      match FindUser(users, body.username)
      case None => Err(InvalidCredentials)
      case Some(user) =>
        if !StrictEquals(Get(user, "password"), body.password) then Err(InvalidCredentials)
        else Ok(WithoutPassword(user))
  }

  /** A missing or empty name or password is answered with 400, before any lookup. */
  lemma CredentialsRequiredIff(body: LoginBody, users: seq<Row>)
    ensures HandleLogin(body, users) == Err(CredentialsRequired) <==>
      body.LoginBody? && (!Truthy(body.username) || !Truthy(body.password))
    ensures body.LoginBody? && body.username in {Str(""), Undefined, Null} ==>
      Status(HandleLogin(body, users)) == 400
  {
  }

  /**
   * An unknown name and a wrong password get the same answer: 401 and the
   * same message, so the response does not tell which of the two it was.
   */
  lemma UnknownUserLikeWrongPassword(body: LoginBody, users: seq<Row>)
    requires body.LoginBody? && Truthy(body.username) && Truthy(body.password)
    ensures FindUser(users, body.username).None? ==>
      HandleLogin(body, users) == Err(InvalidCredentials) && Status(HandleLogin(body, users)) == 401
    ensures var u := FindUser(users, body.username);
      u.Some? && !StrictEquals(Get(u.value, "password"), body.password) ==>
      HandleLogin(body, users) == Err(InvalidCredentials)
    ensures HandleLogin(body, users).Err? ==>
      ErrorMessage(HandleLogin(body, users).error) == "Invalid username or password"
  {
  }

  /**
   * Login succeeds exactly when both credentials are given, a user of that
   * name exists, and the stored password is strictly equal to the one sent.
   */
  lemma LoginSucceedsIff(body: LoginBody, users: seq<Row>)
    ensures HandleLogin(body, users).Ok? <==>
      body.LoginBody? && Truthy(body.username) && Truthy(body.password) &&
      FindUser(users, body.username).Some? &&
      StrictEquals(Get(FindUser(users, body.username).value, "password"), body.password)
  {
  }

  /**
   * The user returned never carries the password, and carries every other
   * column of the stored row unchanged.
   */
  lemma NoPasswordLeak(body: LoginBody, users: seq<Row>)
    requires HandleLogin(body, users).Ok?
    ensures var u := HandleLogin(body, users).value;
      var row := FindUser(users, body.username).value;
      "password" !in u && u.Keys == row.Keys - {"password"} &&
      forall k :: k in u ==> u[k] == row[k]
  {
  }

  /** A stored password that is not strictly equal, as `1234` against `"1234"`, is refused. */
  lemma NumberPasswordDoesNotMatchString(users: seq<Row>)
    requires FindUser(users, Str("admin")).Some?
    requires Get(FindUser(users, Str("admin")).value, "password") == Num(1234)
    ensures HandleLogin(LoginBody(Str("admin"), Str("1234")), users) == Err(InvalidCredentials)
  {
  }
}
