/**
 * The admin routes: POST `/signup` and POST `/login` over the `admins` table.
 * Hashing (`bcrypt.genSalt` + `bcrypt.hash`), checking (`bcrypt.compare`) and token signing
 * (`jwt.sign` with the secret and the 24h expiry) are library code; each handler receives
 * them as function parameters and nothing is assumed about them.
 */
module AuthRoutes {
  import opened Request
  import opened Http
  import Table

  /** What `bcrypt.hash` produces and the `password` column stores. */
  datatype Digest = Digest(encoded: string)

  /** A row of `admins`; the `password` column holds a digest, never the plaintext. */
  datatype Admin = Admin(id: int, username: string, password: Digest, email: string)

  /** The admin as responses show it: `{ id, username, email }`, no password. */
  datatype AdminView = AdminView(id: int, username: string, email: string)

  /** The payload the login token is signed over: `{ id, username }`. */
  datatype Claims = Claims(id: int, username: string)

  datatype SignupBody = SignupBody(username: Option<string>, password: Option<string>, email: Option<string>)
  datatype LoginBody = LoginBody(username: Option<string>, password: Option<string>)

  datatype SignupReply = SignupReply(message: string, admin: AdminView)
  datatype LoginReply = LoginReply(message: string, token: string, admin: AdminView)

  const FIELDS_REQUIRED := "All fields are required"
  const ALREADY_EXISTS := "Username or email already exists"
  const ADMIN_CREATED := "Admin created successfully"
  const CREDENTIALS_REQUIRED := "Username and password are required"
  const INVALID_CREDENTIALS := "Invalid username or password"
  const LOGIN_SUCCESSFUL := "Login successful"

  function View(a: Admin): AdminView {
    AdminView(a.id, a.username, a.email)
  }

  predicate IdsDistinct(rows: seq<Admin>) {
    forall i, j :: 0 <= i < j < |rows| ==> rows[i].id != rows[j].id
  }

  predicate UsernamesDistinct(rows: seq<Admin>) {
    forall i, j :: 0 <= i < j < |rows| ==> rows[i].username != rows[j].username
  }

  predicate EmailsDistinct(rows: seq<Admin>) {
    forall i, j :: 0 <= i < j < |rows| ==> rows[i].email != rows[j].email
  }

  predicate HasId(rows: seq<Admin>, id: int) {
    exists i :: 0 <= i < |rows| && rows[i].id == id
  }

  /** Some row already has this username or this email. */
  predicate Taken(rows: seq<Admin>, username: string, email: string) {
    exists i :: 0 <= i < |rows| && (rows[i].username == username || rows[i].email == email)
  }

  /** `SELECT * FROM admins WHERE username = $1`, first row. */
  function FindByUsername(rows: seq<Admin>, username: string): (r: Option<Admin>)
    ensures r.Some? <==> exists i :: 0 <= i < |rows| && rows[i].username == username
    ensures r.Some? ==> r.value in rows && r.value.username == username
  {
    var found := Table.Where(rows, (a: Admin) => a.username == username);
    if |found| == 0 then None
    else
      assert found[0] in found;
      Some(found[0])
  }

  /** With unique usernames, the row the lookup returns is the only one with that name. */
  lemma FindByUsernameUnique(rows: seq<Admin>, a: Admin)
    requires UsernamesDistinct(rows) && a in rows
    ensures FindByUsername(rows, a.username) == Some(a)
  {
  }

  /** A new row with an unused username is what a lookup by that username finds. */
  lemma FindByUsernameAfterInsert(rows: seq<Admin>, a: Admin)
    requires forall b :: b in rows ==> b.username != a.username
    ensures FindByUsername(rows + [a], a.username) == Some(a)
  {
    Table.WhereAppend(rows, a, (b: Admin) => b.username == a.username);
  }

  /** POST `/login`: reads the table, never writes it. */
  function Login(rows: seq<Admin>, body: LoginBody, compare: (string, Digest) -> bool, sign: Claims -> string)
    : (r: Outcome<LoginReply>)
    ensures r.Ok? || r.BadRequest? || r.Unauthorized?
    ensures r.BadRequest? <==> FalsyText(body.username) || FalsyText(body.password)
    ensures r.BadRequest? ==> r.error == CREDENTIALS_REQUIRED
    ensures r.Unauthorized? ==> r.error == INVALID_CREDENTIALS
    ensures !FalsyText(body.username) && !FalsyText(body.password)
            && (forall a :: a in rows ==> a.username != body.username.value) ==>
              r == Unauthorized(INVALID_CREDENTIALS)
    ensures r.Ok? ==>
              exists a :: a in rows && a.username == body.username.value
                          && compare(body.password.value, a.password)
                          && r.body == LoginReply(LOGIN_SUCCESSFUL, sign(Claims(a.id, a.username)), View(a))
  {
    if FalsyText(body.username) || FalsyText(body.password) then
      BadRequest(CREDENTIALS_REQUIRED)
    else
      match FindByUsername(rows, body.username.value)
      case None => Unauthorized(INVALID_CREDENTIALS)
      case Some(admin) =>
        if !compare(body.password.value, admin.password) then
          Unauthorized(INVALID_CREDENTIALS)
        else
          Ok(LoginReply(LOGIN_SUCCESSFUL, sign(Claims(admin.id, admin.username)), View(admin)))
  }

  /**
   * With unique usernames, logging in as an existing admin succeeds exactly when the
   * password checks against that admin's digest, and the token is signed over that admin's
   * id and username.
   */
  lemma LoginAsExistingAdmin(rows: seq<Admin>, a: Admin, password: string,
                             compare: (string, Digest) -> bool, sign: Claims -> string)
    requires UsernamesDistinct(rows) && a in rows && a.username != "" && password != ""
    ensures Login(rows, LoginBody(Some(a.username), Some(password)), compare, sign)
            == if compare(password, a.password)
               then Ok(LoginReply(LOGIN_SUCCESSFUL, sign(Claims(a.id, a.username)), View(a)))
               else Unauthorized(INVALID_CREDENTIALS)
  {
  }

  /**
   * An unknown username and a wrong password for a known one are answered identically,
   * so a failed login does not reveal which usernames exist.
   */
  lemma UnknownUserLooksLikeWrongPassword(rows: seq<Admin>, unknown: string, a: Admin,
                                         password1: string, password2: string,
                                         compare: (string, Digest) -> bool, sign: Claims -> string)
    requires unknown != "" && password1 != "" && password2 != "" && a.username != ""
    requires forall b :: b in rows ==> b.username != unknown
    requires UsernamesDistinct(rows) && a in rows && !compare(password2, a.password)
    ensures Login(rows, LoginBody(Some(unknown), Some(password1)), compare, sign)
            == Login(rows, LoginBody(Some(a.username), Some(password2)), compare, sign)
  {
  }

  /**
   * The row a signup inserts can log in: with a password check that accepts the password
   * against its digest, the login returns that admin and a token over its id and username.
   */
  lemma LoginAfterSignup(rows: seq<Admin>, a: Admin, password: string,
                         compare: (string, Digest) -> bool, sign: Claims -> string)
    requires forall b :: b in rows ==> b.username != a.username
    requires a.username != "" && password != "" && compare(password, a.password)
    ensures Login(rows + [a], LoginBody(Some(a.username), Some(password)), compare, sign)
            == Ok(LoginReply(LOGIN_SUCCESSFUL, sign(Claims(a.id, a.username)), View(a)))
  {
    FindByUsernameAfterInsert(rows, a);
  }

  /**
   * On a table with unique usernames and emails, the signup handler's check rejects exactly
   * the inserts that would repeat a username or an email.
   */
  lemma SignupCheckIsExact(rows: seq<Admin>, a: Admin)
    requires UsernamesDistinct(rows) && EmailsDistinct(rows)
    ensures Taken(rows, a.username, a.email)
            <==> !(UsernamesDistinct(rows + [a]) && EmailsDistinct(rows + [a]))
  {
    if Taken(rows, a.username, a.email) {
      var i :| 0 <= i < |rows| && (rows[i].username == a.username || rows[i].email == a.email);
      assert (rows + [a])[i] == rows[i] && (rows + [a])[|rows|] == a;
    }
  }

  /** The `admins` table, shared by every request. */
  class AdminStore {
    var rows: seq<Admin>

    ghost predicate Valid()
      reads this
    {
      IdsDistinct(rows)
    }

    constructor ()
      ensures Valid() && rows == []
    {
      rows := [];
    }

    /** POST `/signup`; `hash` stands for salting and hashing this one password. */
    method Signup(body: SignupBody, hash: string -> Digest) returns (out: Outcome<SignupReply>)
      requires Valid()
      modifies this
      ensures Valid()
      ensures UsernamesDistinct(old(rows)) ==> UsernamesDistinct(rows)
      ensures EmailsDistinct(old(rows)) ==> EmailsDistinct(rows)
      ensures FalsyText(body.username) || FalsyText(body.password) || FalsyText(body.email) ==>
                out == BadRequest(FIELDS_REQUIRED) && rows == old(rows)
      ensures !FalsyText(body.username) && !FalsyText(body.password) && !FalsyText(body.email) ==>
                var username, password, email := body.username.value, body.password.value, body.email.value;
                if Taken(old(rows), username, email) then
                  out == BadRequest(ALREADY_EXISTS) && rows == old(rows)
                else
                  && out.Created?
                  && out.body == SignupReply(ADMIN_CREATED, AdminView(out.body.admin.id, username, email))
                  && !HasId(old(rows), out.body.admin.id)
                  && rows == old(rows) + [Admin(out.body.admin.id, username, hash(password), email)]
    {
      if FalsyText(body.username) || FalsyText(body.password) || FalsyText(body.email) {
        return BadRequest(FIELDS_REQUIRED);
      }
      var username, password, email := body.username.value, body.password.value, body.email.value;

      var existing := Table.Where(rows, (a: Admin) => a.username == username || a.email == email);
      if |existing| > 0 {
        return BadRequest(ALREADY_EXISTS);
      }

      var digest := hash(password);
      var id := Table.NextKey(rows, (a: Admin) => a.id);
      var admin := Admin(id, username, digest, email);
      assert forall i :: 0 <= i < |rows| ==> rows[i].id != id && rows[i].username != username && rows[i].email != email by {
        forall i | 0 <= i < |rows| ensures rows[i].id != id && rows[i].username != username && rows[i].email != email {
          assert rows[i] in rows;
        }
      }
      rows := rows + [admin];
      return Created(SignupReply(ADMIN_CREATED, View(admin)));
    }
  }
}
